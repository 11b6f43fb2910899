/** The alert record buffer as a step system: adders, flushers, the flush loop and
    the start and stop calls interleave at their lock and channel operations. */
module AlertBuffer {
  import opened Sequences

  datatype AlertRecord = AlertRecord(id: nat, fingerprint: string)

  datatype Config = Config(bufferSize: int, hasQueue: bool)

  /** Where a flush returns to: its caller, the flush loop, or a stop call that
      took effect when `mark` records had been added. */
  datatype After = Caller | Loop | Stopper(mark: nat)

  /** What a goroutine is about to do. */
  datatype Pc =
    | Idle
    | Sending                            // added a record that filled the buffer; token not yet sent
    | Spawning                           // start took effect; loop not yet running
    | Closing(mark: nat)                 // stop took effect; channel not yet closed
    | Flushing(after: After)             // entered a flush; buffer not yet swapped out
    | Writing(batch: nat, after: After)  // holds a batch; CreateBatch not yet called
    | Requeueing(batch: nat, after: After)
    | LoopWait                           // flush loop at its select
    | Done

  /** The fate of a swapped batch. */
  datatype Status = Held | Persisted | Dropped | Retrying(offered: nat)

  /** The fields that goroutines share; `crashed` once the process has panicked. */
  datatype Shared = Shared(buffer: seq<AlertRecord>, running: bool, token: bool, stopClosed: bool, crashed: bool)

  /** What has happened so far. */
  datatype Log = Log(
    added: seq<AlertRecord>,
    batches: seq<seq<AlertRecord>>,
    status: seq<Status>,
    calls: seq<nat>,
    failed: set<nat>,
    offers: seq<(nat, nat)>,
    stopped: seq<nat>,
    starts: nat, stops: nat, closes: nat)

  datatype State = State(shared: Shared, log: Log, actors: map<nat, Pc>)

  const INITIAL := State(Shared([], false, false, false, false), Log([], [], [], [], {}, [], [], 0, 0, 0), map[])

  /** One atomic section.  The environment chooses the record, the outcome of
      CreateBatch and the identity of a new loop. */
  datatype Action =
    | AddRecord(a: nat, record: AlertRecord)
    | SendToken(a: nat)
    | BeginFlush(a: nat)
    | TakeBatch(a: nat)
    | CreateBatch(a: nat, ok: bool)
    | Offer(a: nat)
    | EndRequeue(a: nat)
    | StartLock(a: nat)
    | Spawn(a: nat, loop: nat)
    | StopLock(a: nat)
    | CloseStop(a: nat)
    | LoopStop(a: nat)
    | LoopTick(a: nat)
    | LoopToken(a: nat)

  /** The shared object.  Each method is one section of the source that runs under
      the mutex or is one channel operation, and does exactly what the matching
      action of the step system does to the shared fields. */
  class AlertRecordBuffer {
    const config: Config
    var buffer: seq<AlertRecord>
    var running: bool
    var flushToken: bool
    var stopClosed: bool

    ghost function Fields(): Shared
      reads this
    {
      Shared(buffer, running, flushToken, stopClosed, false)
    }

    constructor (config: Config)
      ensures this.config == config && Fields() == INITIAL.shared
    {
      this.config := config;
      buffer, running, flushToken, stopClosed := [], false, false, false;
    }

    /** The locked part of an add. */
    method AddLocked(record: AlertRecord, ghost log: Log) returns (shouldFlush: bool)
      modifies this
      ensures var m := Effect(config, old(Fields()), log, Idle, AddRecord(0, record));
              Fields() == m.shared && shouldFlush == m.pc.Sending?
      ensures buffer == old(buffer) + [record]
      ensures shouldFlush <==> |buffer| >= config.bufferSize
    {
      buffer := buffer + [record];
      shouldFlush := |buffer| >= config.bufferSize;
    }

    /** The send that gives up when the channel already holds a token. */
    method Signal(ghost log: Log)
      modifies this
      ensures Fields() == Effect(config, old(Fields()), log, Sending, SendToken(0)).shared
      ensures flushToken
    {
      if !flushToken {
        flushToken := true;
      }
    }

    /** The locked part of a flush. */
    method SwapLocked(ghost log: Log, ghost after: After) returns (batch: seq<AlertRecord>)
      modifies this
      ensures var m := Effect(config, old(Fields()), log, Flushing(after), TakeBatch(0));
              && Fields() == m.shared
              && m.log.batches == (if batch == [] then log.batches else log.batches + [batch])
              && (batch != [] <==> m.pc.Writing?)
      ensures batch == old(buffer) && buffer == []
    {
      if |buffer| == 0 {
        return [];
      }
      batch := buffer;
      buffer := [];
    }

    /** The locked part of a start. */
    method StartLocked(ghost log: Log) returns (spawn: bool)
      modifies this
      ensures var m := Effect(config, old(Fields()), log, Idle, StartLock(0));
              Fields() == m.shared && spawn == m.pc.Spawning?
      ensures running && (spawn <==> !old(running))
    {
      if running {
        return false;
      }
      running := true;
      spawn := true;
    }

    /** The locked part of a stop. */
    method StopLocked(ghost log: Log) returns (close: bool)
      modifies this
      ensures var m := Effect(config, old(Fields()), log, Idle, StopLock(0));
              Fields() == m.shared && close == m.pc.Closing?
      ensures !running && (close <==> old(running))
    {
      if !running {
        return false;
      }
      running := false;
      close := true;
    }

    /** Closing the stop channel; `panics` when it is closed already. */
    method CloseStopChannel(ghost log: Log, ghost mark: nat) returns (panics: bool)
      modifies this
      ensures var m := Effect(config, old(Fields()), log, Closing(mark), CloseStop(0));
              panics == m.shared.crashed && (!panics ==> Fields() == m.shared)
      ensures stopClosed && (panics <==> old(stopClosed))
    {
      panics := stopClosed;
      stopClosed := true;
    }

    /** The flush loop's receive. */
    method Receive(ghost log: Log)
      requires flushToken
      modifies this
      ensures Fields() == Effect(config, old(Fields()), log, LoopWait, LoopToken(0)).shared
      ensures !flushToken
    {
      flushToken := false;
    }
  }

  function PcOf(st: State, a: nat): Pc {
    if a in st.actors then st.actors[a] else Idle
  }

  predicate Retries(log: Log, i: nat) {
    i < |log.status| && i < |log.batches| && log.status[i].Retrying?
  }

  /** The acting goroutine is where the action starts, and nothing blocks it. */
  predicate Ready(sh: Shared, log: Log, pc: Pc, act: Action) {
    match act
    case AddRecord(_, _) => pc.Idle?
    case SendToken(_) => pc.Sending?
    case BeginFlush(_) => pc.Idle?
    case TakeBatch(_) => pc.Flushing?
    case CreateBatch(_, _) => pc.Writing? && pc.batch < |log.status|
    case Offer(_) => pc.Requeueing? && Retries(log, pc.batch) && log.status[pc.batch].offered < |log.batches[pc.batch]|
    case EndRequeue(_) => pc.Requeueing? && Retries(log, pc.batch) && log.status[pc.batch].offered >= |log.batches[pc.batch]|
    case StartLock(_) => pc.Idle?
    case Spawn(_, _) => pc.Spawning?
    case StopLock(_) => pc.Idle?
    case CloseStop(_) => pc.Closing?
    case LoopStop(_) => pc.LoopWait? && sh.stopClosed
    case LoopTick(_) => pc.LoopWait?
    case LoopToken(_) => pc.LoopWait? && sh.token
  }

  predicate Enabled(st: State, act: Action) {
    && !st.shared.crashed
    && Ready(st.shared, st.log, PcOf(st, act.a), act)
    && (act.Spawn? ==> act.loop !in st.actors && act.loop != act.a)
  }

  /** What an action does to the shared fields, the log and its goroutine. */
  datatype Move = Move(shared: Shared, log: Log, pc: Pc)

  function AfterPc(after: After): Pc {
    if after.Loop? then LoopWait else Idle
  }

  /** A flush returns. */
  function Return(sh: Shared, log: Log, after: After): Move {
    Move(sh, if after.Stopper? then log.(stopped := log.stopped + [after.mark]) else log, AfterPc(after))
  }

  function Effect(cfg: Config, sh: Shared, log: Log, pc: Pc, act: Action): Move
    requires Ready(sh, log, pc, act)
  {
    match act
    case AddRecord(_, r) =>
      Move(sh.(buffer := sh.buffer + [r]), log.(added := log.added + [r]),
           if |sh.buffer| + 1 >= cfg.bufferSize then Sending else Idle)
    case SendToken(_) => Move(sh.(token := true), log, Idle)
    case BeginFlush(_) => Move(sh, log, Flushing(Caller))
    case TakeBatch(_) =>
      if sh.buffer == [] then Return(sh, log, pc.after)
      else Move(sh.(buffer := []), log.(batches := log.batches + [sh.buffer], status := log.status + [Held]),
                Writing(|log.batches|, pc.after))
    case CreateBatch(_, ok) =>
      var called := log.(calls := log.calls + [pc.batch], failed := if ok then log.failed else log.failed + {pc.batch});
      if ok then Return(sh, called.(status := log.status[pc.batch := Persisted]), pc.after)
      else if !cfg.hasQueue then Return(sh, called.(status := log.status[pc.batch := Dropped]), pc.after)
      else Move(sh, called.(status := log.status[pc.batch := Retrying(0)]), Requeueing(pc.batch, pc.after))
    case Offer(_) =>
      var n := log.status[pc.batch].offered;
      Move(sh, log.(offers := log.offers + [(pc.batch, n)], status := log.status[pc.batch := Retrying(n + 1)]), pc)
    case EndRequeue(_) => Return(sh, log, pc.after)
    case StartLock(_) =>
      if sh.running then Move(sh, log, Idle)
      else Move(sh.(running := true), log.(starts := log.starts + 1), Spawning)
    case Spawn(_, _) => Move(sh, log, Idle)
    case StopLock(_) =>
      if !sh.running then Move(sh, log, Idle)
      else Move(sh.(running := false), log.(stops := log.stops + 1), Closing(|log.added|))
    case CloseStop(_) =>
      // Closing a closed channel panics.
      if sh.stopClosed then Move(sh.(crashed := true), log.(closes := log.closes + 1), Done)
      else Move(sh.(stopClosed := true), log.(closes := log.closes + 1), Flushing(Stopper(pc.mark)))
    case LoopStop(_) => Move(sh, log, Done)
    case LoopTick(_) => Move(sh, log, Flushing(Loop))
    case LoopToken(_) => Move(sh.(token := false), log, Flushing(Loop))
  }

  function MoveOf(cfg: Config, st: State, act: Action): Move
    requires Enabled(st, act)
  {
    Effect(cfg, st.shared, st.log, PcOf(st, act.a), act)
  }

  function Next(cfg: Config, st: State, act: Action): State
    requires Enabled(st, act)
  {
    var m := MoveOf(cfg, st, act);
    State(m.shared, m.log,
          if act.Spawn? then st.actors[act.a := m.pc][act.loop := LoopWait] else st.actors[act.a := m.pc])
  }

  lemma PcAfter(cfg: Config, st: State, act: Action, b: nat)
    requires Enabled(st, act)
    ensures PcOf(Next(cfg, st, act), b) ==
            if b == act.a then MoveOf(cfg, st, act).pc
            else if act.Spawn? && b == act.loop then LoopWait
            else PcOf(st, b)
  {
    hide Effect;
  }

  /** A goroutine goes on to send a token exactly when it has added a record and the
      buffer then held at least `bufferSize` of them. */
  lemma SendsWhenFull(cfg: Config, st: State, act: Action, b: nat)
    requires Enabled(st, act)
    ensures PcOf(Next(cfg, st, act), b).Sending? <==>
            if act.AddRecord? && b == act.a then |Next(cfg, st, act).shared.buffer| >= cfg.bufferSize
            else PcOf(st, b).Sending? && b != act.a
  {
    PcAfter(cfg, st, act, b);
    if b == act.a {
      SendsOnAdd(cfg, st.shared, st.log, PcOf(st, b), act);
    }
  }

  lemma SendsOnAdd(cfg: Config, sh: Shared, log: Log, pc: Pc, act: Action)
    requires Ready(sh, log, pc, act)
    ensures var m := Effect(cfg, sh, log, pc, act);
            m.pc.Sending? <==> act.AddRecord? && |m.shared.buffer| >= cfg.bufferSize
  {
  }

  /** A goroutine that runs the flush loop, be it in a flush. */
  ghost predicate InLoop(pc: Pc) {
    pc.LoopWait? || ((pc.Flushing? || Busy(pc)) && pc.after.Loop?)
  }

  /** The flush loop runs from when it is spawned until it sees the channel closed;
      no flush and no failed write ends it. */
  lemma StepKeepsLoops(cfg: Config, st: State, act: Action, b: nat)
    requires Enabled(st, act)
    ensures InLoop(PcOf(Next(cfg, st, act), b)) <==>
            (act.Spawn? && b == act.loop) || (InLoop(PcOf(st, b)) && !(act.LoopStop? && b == act.a))
  {
    PcAfter(cfg, st, act, b);
    if b == act.a {
      EffectKeepsLoop(cfg, st.shared, st.log, PcOf(st, b), act);
    }
  }

  lemma EffectKeepsLoop(cfg: Config, sh: Shared, log: Log, pc: Pc, act: Action)
    requires Ready(sh, log, pc, act)
    ensures InLoop(Effect(cfg, sh, log, pc, act).pc) <==> InLoop(pc) && !act.LoopStop?
  {
  }

  // ---- Conservation ----

  ghost function Flatten(batches: seq<seq<AlertRecord>>): seq<AlertRecord> {
    if batches == [] then [] else Flatten(batches[..|batches| - 1]) + batches[|batches| - 1]
  }

  /** The batches in swap order followed by the buffer are all adds, in order. */
  ghost predicate Conserved(st: State) {
    Flatten(st.log.batches) + st.shared.buffer == st.log.added
  }

  lemma FlattenSnoc(batches: seq<seq<AlertRecord>>, b: seq<AlertRecord>)
    ensures Flatten(batches + [b]) == Flatten(batches) + b
  {
    assert (batches + [b])[..|batches|] == batches;
  }

  lemma DataFrame(cfg: Config, sh: Shared, log: Log, pc: Pc, act: Action)
    requires Ready(sh, log, pc, act) && !act.AddRecord? && !act.TakeBatch?
    ensures var m := Effect(cfg, sh, log, pc, act);
            m.shared.buffer == sh.buffer && m.log.added == log.added && m.log.batches == log.batches
  {
  }

  lemma StepConserves(cfg: Config, st: State, act: Action)
    requires Enabled(st, act) && Conserved(st)
    ensures Conserved(Next(cfg, st, act))
  {
    hide Flatten;
    if act.AddRecord? {
      assert Flatten(st.log.batches) + (st.shared.buffer + [act.record])
          == (Flatten(st.log.batches) + st.shared.buffer) + [act.record];
    } else if act.TakeBatch? {
      FlattenSnoc(st.log.batches, st.shared.buffer);
    } else {
      DataFrame(cfg, st.shared, st.log, PcOf(st, act.a), act);
      hide Effect;
    }
  }

  // ---- Every batch is written once, every failed record offered once ----

  /** A batch has been written exactly when it is no longer held, and no batch is
      written twice. */
  ghost predicate CalledOnce(log: Log) {
    && Distinct(log.calls)
    && (forall i :: i in log.calls <==> 0 <= i < |log.status| && !log.status[i].Held?)
  }

  /** Exactly the first `offered` records of a batch that is being retried have
      been offered, each once. */
  ghost predicate OfferedOnce(log: Log) {
    && |log.status| == |log.batches|
    && Distinct(log.offers)
    && (forall i: nat, n: nat :: (i, n) in log.offers <==> Offered(log.status, i, n))
    && (forall i :: 0 <= i < |log.status| && log.status[i].Retrying? ==> log.status[i].offered <= |log.batches[i]|)
  }

  ghost predicate Offered(status: seq<Status>, i: nat, n: nat) {
    i < |status| && status[i].Retrying? && n < status[i].offered
  }

  lemma RecordFrame(cfg: Config, sh: Shared, log: Log, pc: Pc, act: Action)
    requires Ready(sh, log, pc, act) && !act.TakeBatch? && !act.CreateBatch? && !act.Offer?
    ensures var m := Effect(cfg, sh, log, pc, act);
            && m.log.batches == log.batches && m.log.status == log.status
            && m.log.calls == log.calls && m.log.offers == log.offers && m.log.failed == log.failed
            && !pc.Writing? && !Busy(m.pc) && (pc.Requeueing? ==> act.EndRequeue?)
  {
  }

  lemma StepCalls(cfg: Config, sh: Shared, log: Log, pc: Pc, act: Action)
    requires Ready(sh, log, pc, act) && CalledOnce(log)
    requires pc.Writing? ==> pc.batch < |log.status| && log.status[pc.batch].Held?
    ensures CalledOnce(Effect(cfg, sh, log, pc, act).log)
  {
    if act.CreateBatch? {
      var now := Effect(cfg, sh, log, pc, act).log;
      assert now.calls == log.calls + [pc.batch];
      assert forall i :: 0 <= i < |log.calls| ==> log.calls[i] in log.calls;
    } else if !act.TakeBatch? && !act.Offer? {
      RecordFrame(cfg, sh, log, pc, act);
      hide Effect;
    }
  }

  lemma StepOffers(cfg: Config, sh: Shared, log: Log, pc: Pc, act: Action)
    requires Ready(sh, log, pc, act) && OfferedOnce(log)
    requires pc.Writing? ==> pc.batch < |log.status| && log.status[pc.batch].Held?
    ensures OfferedOnce(Effect(cfg, sh, log, pc, act).log)
  {
    var now := Effect(cfg, sh, log, pc, act).log;
    if act.Offer? {
      var i := pc.batch;
      var n := log.status[i].offered;
      assert !Offered(log.status, i, n);
      assert forall k :: 0 <= k < |log.offers| ==> log.offers[k] in log.offers;
      forall j: nat, k: nat ensures (j, k) in now.offers <==> Offered(now.status, j, k) {
        assert (j, k) in now.offers <==> (j, k) in log.offers || (j, k) == (i, n);
      }
    } else if act.CreateBatch? {
      forall j: nat, k: nat ensures Offered(now.status, j, k) <==> Offered(log.status, j, k) {
      }
    } else if act.TakeBatch? {
      forall j: nat, k: nat ensures Offered(now.status, j, k) <==> Offered(log.status, j, k) {
      }
    } else {
      RecordFrame(cfg, sh, log, pc, act);
      hide Effect;
    }
  }

  /** A batch whose write failed is retried when there is a queue and dropped when
      there is none, and no other batch is. */
  ghost predicate FatesFit(cfg: Config, log: Log) {
    && (forall i :: i in log.failed ==> i < |log.status|)
    && (forall i :: 0 <= i < |log.status| ==> (log.status[i].Retrying? <==> cfg.hasQueue && i in log.failed))
    && (forall i :: 0 <= i < |log.status| ==> (log.status[i].Dropped? <==> !cfg.hasQueue && i in log.failed))
  }

  lemma StepFates(cfg: Config, sh: Shared, log: Log, pc: Pc, act: Action)
    requires Ready(sh, log, pc, act) && FatesFit(cfg, log)
    requires pc.Writing? ==> pc.batch < |log.status| && log.status[pc.batch].Held?
    ensures FatesFit(cfg, Effect(cfg, sh, log, pc, act).log)
  {
    if !act.CreateBatch? && !act.TakeBatch? && !act.Offer? {
      RecordFrame(cfg, sh, log, pc, act);
      hide Effect;
    }
  }

  // ---- Each open batch has its goroutine ----

  ghost predicate Busy(pc: Pc) { pc.Writing? || pc.Requeueing? }

  ghost predicate Writes(st: State, a: nat, i: nat) {
    PcOf(st, a).Writing? && PcOf(st, a).batch == i
  }

  ghost predicate Requeues(st: State, a: nat, i: nat) {
    PcOf(st, a).Requeueing? && PcOf(st, a).batch == i
  }

  ghost predicate OwnersFit(st: State) {
    forall a :: Busy(PcOf(st, a)) ==>
      && PcOf(st, a).batch < |st.log.status|
      && (if PcOf(st, a).Writing? then st.log.status[PcOf(st, a).batch].Held? else st.log.status[PcOf(st, a).batch].Retrying?)
  }

  ghost predicate OwnersDiffer(st: State) {
    forall a, b :: a != b && Busy(PcOf(st, a)) && Busy(PcOf(st, b)) ==> PcOf(st, a).batch != PcOf(st, b).batch
  }

  ghost predicate Unfinished(log: Log, i: nat) {
    i < |log.status| && i < |log.batches| && log.status[i].Retrying? && log.status[i].offered < |log.batches[i]|
  }

  /** Each held batch has the one goroutine that will write it, each unfinished
      retry the one goroutine that is offering its records. */
  ghost predicate Owned(st: State) {
    && |st.log.status| == |st.log.batches|
    && OwnersFit(st) && OwnersDiffer(st)
    && (forall i :: 0 <= i < |st.log.status| && st.log.status[i].Held? ==> exists a :: Writes(st, a, i))
    && (forall i :: Unfinished(st.log, i) ==> exists a :: Requeues(st, a, i))
  }

  /** Only `a` changes between idling and owning a batch. */
  ghost predicate OnlyMoves(st: State, now: State, a: nat) {
    forall b :: b != a ==> PcOf(now, b) == PcOf(st, b) || (!Busy(PcOf(now, b)) && !Busy(PcOf(st, b)))
  }

  lemma StepMovesOne(cfg: Config, st: State, act: Action)
    requires Enabled(st, act)
    ensures OnlyMoves(st, Next(cfg, st, act), act.a)
    ensures PcOf(Next(cfg, st, act), act.a) == MoveOf(cfg, st, act).pc
    ensures Next(cfg, st, act).log == MoveOf(cfg, st, act).log
  {
    hide Effect;
    forall b | b != act.a
      ensures PcOf(Next(cfg, st, act), b) == PcOf(st, b)
           || (!Busy(PcOf(Next(cfg, st, act), b)) && !Busy(PcOf(st, b)))
    {
      PcAfter(cfg, st, act, b);
    }
    PcAfter(cfg, st, act, act.a);
  }

  lemma OwnedQuiet(st: State, now: State, a: nat)
    requires Owned(st) && OnlyMoves(st, now, a) && !PcOf(st, a).Writing? && !Busy(PcOf(now, a))
    requires PcOf(st, a).Requeueing? ==> !Unfinished(st.log, PcOf(st, a).batch)
    requires now.log.status == st.log.status && now.log.batches == st.log.batches
    ensures Owned(now)
  {
    forall i | 0 <= i < |now.log.status| && now.log.status[i].Held? ensures exists b :: Writes(now, b, i) {
      var b :| Writes(st, b, i);
      assert Writes(now, b, i);
    }
    forall i | Unfinished(now.log, i) ensures exists b :: Requeues(now, b, i) {
      assert Unfinished(st.log, i);
      var b :| Requeues(st, b, i);
      assert Requeues(now, b, i);
    }
  }

  lemma OwnedTake(st: State, now: State, a: nat, batch: seq<AlertRecord>, after: After)
    requires Owned(st) && OnlyMoves(st, now, a) && !Busy(PcOf(st, a))
    requires PcOf(now, a) == Writing(|st.log.batches|, after)
    requires now.log.status == st.log.status + [Held] && now.log.batches == st.log.batches + [batch]
    ensures Owned(now)
  {
    forall i | 0 <= i < |now.log.status| && now.log.status[i].Held? ensures exists b :: Writes(now, b, i) {
      if i == |st.log.status| {
        assert Writes(now, a, i);
      } else {
        var b :| Writes(st, b, i);
        assert Writes(now, b, i);
      }
    }
    forall i | Unfinished(now.log, i) ensures exists b :: Requeues(now, b, i) {
      assert Unfinished(st.log, i);
      var b :| Requeues(st, b, i);
      assert Requeues(now, b, i);
    }
  }

  lemma OwnedWrite(st: State, now: State, a: nat, i: nat, s: Status)
    requires Owned(st) && OnlyMoves(st, now, a) && Writes(st, a, i) && i < |st.log.status|
    requires if s.Retrying? then Requeues(now, a, i) else !Busy(PcOf(now, a))
    requires !s.Held? && now.log.status == st.log.status[i := s] && now.log.batches == st.log.batches
    ensures Owned(now)
  {
    forall k | 0 <= k < |now.log.status| && now.log.status[k].Held? ensures exists b :: Writes(now, b, k) {
      var b :| Writes(st, b, k);
      assert Writes(now, b, k);
    }
    forall k | Unfinished(now.log, k) ensures exists b :: Requeues(now, b, k) {
      if k == i {
        assert Requeues(now, a, i);
      } else {
        assert Unfinished(st.log, k);
        var b :| Requeues(st, b, k);
        assert Requeues(now, b, k);
      }
    }
  }

  lemma OwnedOffer(st: State, now: State, a: nat, i: nat, n: nat)
    requires Owned(st) && OnlyMoves(st, now, a) && Requeues(st, a, i) && PcOf(now, a) == PcOf(st, a)
    requires i < |st.log.status| && now.log.status == st.log.status[i := Retrying(n)] && now.log.batches == st.log.batches
    ensures Owned(now)
  {
    assert st.log.status[i].Retrying?;
    forall k | 0 <= k < |now.log.status| && now.log.status[k].Held? ensures exists b :: Writes(now, b, k) {
      var b :| Writes(st, b, k);
      assert Writes(now, b, k);
    }
    forall k | Unfinished(now.log, k) ensures exists b :: Requeues(now, b, k) {
      if k == i {
        assert Requeues(now, a, i);
      } else {
        assert Unfinished(st.log, k);
        var b :| Requeues(st, b, k);
        assert Requeues(now, b, k);
      }
    }
  }

  lemma StepOwned(cfg: Config, st: State, act: Action)
    requires Enabled(st, act) && Owned(st)
    ensures Owned(Next(cfg, st, act))
  {
    var now, pc := Next(cfg, st, act), PcOf(st, act.a);
    StepMovesOne(cfg, st, act);
    hide Next, OnlyMoves, Owned;
    if act.TakeBatch? {
      if st.shared.buffer == [] {
        OwnedQuiet(st, now, act.a);
      } else {
        OwnedTake(st, now, act.a, st.shared.buffer, pc.after);
      }
    } else if act.CreateBatch? {
      var s := if act.ok then Persisted else if cfg.hasQueue then Retrying(0) else Dropped;
      OwnedWrite(st, now, act.a, pc.batch, s);
    } else if act.Offer? {
      OwnedOffer(st, now, act.a, pc.batch, st.log.status[pc.batch].offered + 1);
    } else {
      RecordFrame(cfg, st.shared, st.log, pc, act);
      hide Effect;
      OwnedQuiet(st, now, act.a);
    }
  }

  // ---- No lost wake-up ----

  ghost predicate Full(cfg: Config, sh: Shared) {
    sh.buffer != [] && |sh.buffer| >= cfg.bufferSize
  }

  /** `a` is about to send a token, or has entered a flush that has not swapped yet. */
  ghost predicate Stirring(st: State, a: nat) {
    PcOf(st, a).Sending? || PcOf(st, a).Flushing?
  }

  /** A full buffer has a token in the channel, an adder about to send one, or a
      flusher that has not swapped yet. */
  ghost predicate Awake(cfg: Config, st: State) {
    Full(cfg, st.shared) && !st.shared.crashed ==> st.shared.token || exists a :: Stirring(st, a)
  }

  lemma WakeFrame(cfg: Config, sh: Shared, log: Log, pc: Pc, act: Action)
    requires Ready(sh, log, pc, act)
    ensures var m := Effect(cfg, sh, log, pc, act);
            || !Full(cfg, m.shared) || m.shared.crashed || m.shared.token || m.pc.Sending? || m.pc.Flushing?
            || (Full(cfg, sh) && !sh.token && !pc.Sending? && !pc.Flushing?)
  {
    if !act.AddRecord? && !act.TakeBatch? {
      DataFrame(cfg, sh, log, pc, act);
    }
  }

  lemma StepStaysAwake(cfg: Config, st: State, act: Action)
    requires Enabled(st, act) && Awake(cfg, st)
    ensures Awake(cfg, Next(cfg, st, act))
  {
    var now := Next(cfg, st, act);
    WakeFrame(cfg, st.shared, st.log, PcOf(st, act.a), act);
    PcAfter(cfg, st, act, act.a);
    hide Effect;
    if Full(cfg, now.shared) && !now.shared.crashed && !now.shared.token && !Stirring(now, act.a) {
      var b :| Stirring(st, b);
      PcAfter(cfg, st, act, b);
      assert Stirring(now, b);
    }
  }

  // ---- Stop leaves nothing behind ----

  ghost function Swapped(st: State): nat {
    |Flatten(st.log.batches)|
  }

  ghost predicate MarkFits(st: State, pc: Pc) {
    && (pc.Closing? ==> pc.mark <= |st.log.added|)
    && (pc.Flushing? && pc.after.Stopper? ==> pc.after.mark <= |st.log.added|)
    && (Busy(pc) && pc.after.Stopper? ==> pc.after.mark <= Swapped(st))
  }

  /** A stop call that has swapped, or has returned, left no record behind that was
      added before it took effect. */
  ghost predicate StopsDrain(st: State) {
    && (forall a :: MarkFits(st, PcOf(st, a)))
    && (forall k :: 0 <= k < |st.log.stopped| ==> st.log.stopped[k] <= Swapped(st))
  }

  lemma MarkFrame(cfg: Config, sh: Shared, log: Log, pc: Pc, act: Action)
    requires Ready(sh, log, pc, act)
    ensures var m := Effect(cfg, sh, log, pc, act);
            && |m.log.added| >= |log.added|
            && (m.log.stopped == log.stopped
                || (pc.Flushing? && sh.buffer == [] && pc.after.Stopper? && m.log.stopped == log.stopped + [pc.after.mark])
                || (Busy(pc) && pc.after.Stopper? && m.log.stopped == log.stopped + [pc.after.mark]))
            && (m.pc.Closing? ==> m.pc.mark == |log.added|)
            && (m.pc.Flushing? && m.pc.after.Stopper? ==> pc.Closing? && m.pc.after.mark == pc.mark)
            && (Busy(m.pc) ==> ((Busy(pc) && m.pc.after == pc.after)
                                || (pc.Flushing? && m.pc.after == pc.after && m.log.batches == log.batches + [sh.buffer])))
            && (m.log.batches == log.batches || m.log.batches == log.batches + [sh.buffer])
  {
  }

  lemma StepDrains(cfg: Config, st: State, act: Action)
    requires Enabled(st, act) && Conserved(st) && StopsDrain(st)
    ensures StopsDrain(Next(cfg, st, act))
  {
    hide Effect, Flatten, Next, OnlyMoves, Ready;
    var now, pc := Next(cfg, st, act), PcOf(st, act.a);
    MarkFrame(cfg, st.shared, st.log, pc, act);
    FlattenSnoc(st.log.batches, st.shared.buffer);
    StepMovesOne(cfg, st, act);
    assert MarkFits(st, pc);
    forall b ensures MarkFits(now, PcOf(now, b)) {
      PcAfter(cfg, st, act, b);
      assert MarkFits(st, PcOf(st, b));
    }
  }

  ghost predicate Stopping(pc: Pc) {
    (pc.Flushing? || Busy(pc)) && pc.after.Stopper?
  }

  ghost function StoppingActors(actors: map<nat, Pc>): set<nat> {
    set a | a in actors && Stopping(actors[a])
  }

  /** The one stop call that closed the channel is either still flushing or has
      returned. */
  ghost predicate StopsReturn(st: State) {
    |StoppingActors(st.actors)| + |st.log.stopped| == if st.log.closes >= 1 then 1 else 0
  }

  lemma ReturnFrame(cfg: Config, sh: Shared, log: Log, pc: Pc, act: Action)
    requires Ready(sh, log, pc, act) && (sh.stopClosed <==> log.closes >= 1)
    ensures var m := Effect(cfg, sh, log, pc, act);
            || (m.log.closes == log.closes && Stopping(m.pc) == Stopping(pc) && |m.log.stopped| == |log.stopped|)
            || (m.log.closes == log.closes && Stopping(pc) && !Stopping(m.pc) && |m.log.stopped| == |log.stopped| + 1)
            || (log.closes == 0 && m.log.closes == 1 && !Stopping(pc) && Stopping(m.pc) && |m.log.stopped| == |log.stopped|)
            || (log.closes >= 1 && m.log.closes >= 1 && Stopping(m.pc) == Stopping(pc) && |m.log.stopped| == |log.stopped|)
  {
  }

  lemma StepReturns(cfg: Config, st: State, act: Action)
    requires Enabled(st, act) && StopsReturn(st) && Counted(st)
    ensures StopsReturn(Next(cfg, st, act))
  {
    hide Effect, Ready, StoppingActors, Counted;
    var now, pc, m := Next(cfg, st, act), PcOf(st, act.a), MoveOf(cfg, st, act);
    CountedCloses(st);
    ReturnFrame(cfg, st.shared, st.log, pc, act);
    StoppingAfter(st.actors, act.a, m.pc);
    if act.Spawn? {
      StoppingAfter(st.actors[act.a := m.pc], act.loop, LoopWait);
    }
  }

  lemma CountedCloses(st: State)
    requires Counted(st)
    ensures st.shared.stopClosed <==> st.log.closes >= 1
  {
  }

  /** Moving one goroutine changes the count of stopping goroutines accordingly. */
  lemma StoppingAfter(actors: map<nat, Pc>, a: nat, pc: Pc)
    ensures var was := if a in actors && Stopping(actors[a]) then 1 else 0;
            |StoppingActors(actors[a := pc])| == |StoppingActors(actors)| - was + if Stopping(pc) then 1 else 0
  {
    var rest := StoppingActors(actors) - {a};
    assert StoppingActors(actors) == if a in actors && Stopping(actors[a]) then rest + {a} else rest;
    assert StoppingActors(actors[a := pc]) == if Stopping(pc) then rest + {a} else rest;
  }

  // ---- Closing twice ----

  ghost function ClosingActors(actors: map<nat, Pc>): set<nat> {
    set a | a in actors && actors[a].Closing?
  }

  /** Effective starts and stops alternate, each effective stop closes the channel
      once, and the second close panics. */
  ghost predicate Counted(st: State) {
    && st.log.starts == st.log.stops + (if st.shared.running then 1 else 0)
    && |ClosingActors(st.actors)| + st.log.closes == st.log.stops
    && (st.shared.stopClosed <==> st.log.closes >= 1)
    && (st.shared.crashed <==> st.log.closes >= 2)
  }

  ghost function Bit(b: bool): nat {
    if b then 1 else 0
  }

  lemma CountFrame(cfg: Config, sh: Shared, log: Log, pc: Pc, act: Action)
    requires Ready(sh, log, pc, act) && !sh.crashed
    requires sh.stopClosed <==> log.closes >= 1
    requires log.closes < 2
    ensures var m := Effect(cfg, sh, log, pc, act);
            && m.log.starts - m.log.stops - Bit(m.shared.running) == log.starts - log.stops - Bit(sh.running)
            && m.log.stops - m.log.closes - Bit(m.pc.Closing?) == log.stops - log.closes - Bit(pc.Closing?)
            && (m.shared.stopClosed <==> m.log.closes >= 1)
            && (m.shared.crashed <==> m.log.closes >= 2)
  {
  }

  lemma StepCounts(cfg: Config, st: State, act: Action)
    requires Enabled(st, act) && Counted(st)
    ensures Counted(Next(cfg, st, act))
  {
    hide Effect, Ready, ClosingActors;
    var m := MoveOf(cfg, st, act);
    CountFrame(cfg, st.shared, st.log, PcOf(st, act.a), act);
    ClosingAfter(st.actors, act.a, m.pc);
    if act.Spawn? {
      ClosingAfter(st.actors[act.a := m.pc], act.loop, LoopWait);
    }
  }

  /** Moving one goroutine changes the count of closing goroutines accordingly. */
  lemma ClosingAfter(actors: map<nat, Pc>, a: nat, pc: Pc)
    ensures var was := if a in actors && actors[a].Closing? then 1 else 0;
            |ClosingActors(actors[a := pc])| == |ClosingActors(actors)| - was + if pc.Closing? then 1 else 0
  {
    var rest := ClosingActors(actors) - {a};
    assert ClosingActors(actors) == if a in actors && actors[a].Closing? then rest + {a} else rest;
    assert ClosingActors(actors[a := pc]) == if pc.Closing? then rest + {a} else rest;
  }

  // ---- Whole runs ----

  ghost predicate Inv(cfg: Config, st: State) {
    && Conserved(st) && CalledOnce(st.log) && OfferedOnce(st.log) && FatesFit(cfg, st.log) && Owned(st)
    && Awake(cfg, st) && StopsDrain(st) && Counted(st) && StopsReturn(st)
  }

  lemma InitialInv(cfg: Config)
    ensures Inv(cfg, INITIAL)
  {
    hide Counted, StopsReturn, StopsDrain, Conserved, OfferedOnce, CalledOnce;
    InitialCounts();
    InitialDrains();
    InitialLog();
  }

  lemma InitialCounts()
    ensures Counted(INITIAL) && StopsReturn(INITIAL)
  {
    assert ClosingActors(INITIAL.actors) == {} && StoppingActors(INITIAL.actors) == {};
  }

  lemma InitialDrains()
    ensures Conserved(INITIAL) && StopsDrain(INITIAL)
  {
  }

  lemma InitialLog()
    ensures CalledOnce(INITIAL.log) && OfferedOnce(INITIAL.log)
  {
  }

  lemma StepInv(cfg: Config, st: State, act: Action)
    requires Enabled(st, act) && Inv(cfg, st)
    ensures Inv(cfg, Next(cfg, st, act))
  {
    hide Next, Effect, Conserved, CalledOnce, OfferedOnce, FatesFit, Owned, Awake, StopsDrain, Counted, StopsReturn, OnlyMoves;
    WriterHolds(st, act.a);
    StepMovesOne(cfg, st, act);
    StepConserves(cfg, st, act);
    StepCalls(cfg, st.shared, st.log, PcOf(st, act.a), act);
    StepOffers(cfg, st.shared, st.log, PcOf(st, act.a), act);
    StepFates(cfg, st.shared, st.log, PcOf(st, act.a), act);
    StepOwned(cfg, st, act);
    StepStaysAwake(cfg, st, act);
    StepDrains(cfg, st, act);
    StepCounts(cfg, st, act);
    StepReturns(cfg, st, act);
  }

  lemma WriterHolds(st: State, a: nat)
    requires Owned(st)
    ensures PcOf(st, a).Writing? ==> PcOf(st, a).batch < |st.log.status| && st.log.status[PcOf(st, a).batch].Held?
  {
    assert PcOf(st, a).Writing? ==> Busy(PcOf(st, a));
  }

  /** Every action of `acts` is enabled when its turn comes. */
  ghost predicate Legal(cfg: Config, st: State, acts: seq<Action>)
    decreases |acts|
  {
    acts == [] || (Enabled(st, acts[0]) && Legal(cfg, Next(cfg, st, acts[0]), acts[1..]))
  }

  ghost function Run(cfg: Config, st: State, acts: seq<Action>): State
    requires Legal(cfg, st, acts)
    decreases |acts|
  {
    if acts == [] then st else Run(cfg, Next(cfg, st, acts[0]), acts[1..])
  }

  lemma {:induction false} RunInv(cfg: Config, st: State, acts: seq<Action>)
    requires Inv(cfg, st) && Legal(cfg, st, acts)
    ensures Inv(cfg, Run(cfg, st, acts))
    decreases |acts|
  {
    hide Inv, Next, Enabled;
    if acts == [] {
    } else {
      StepInv(cfg, st, acts[0]);
      RunInv(cfg, Next(cfg, st, acts[0]), acts[1..]);
    }
  }

  // ---- The log against the actions ----

  /** The record that an action adds, if any. */
  ghost function RecordOf(act: Action): seq<AlertRecord> {
    if act.AddRecord? then [act.record] else []
  }

  /** The outcome of the write that an action makes, if any. */
  ghost function OutcomeOf(act: Action): seq<bool> {
    if act.CreateBatch? then [act.ok] else []
  }

  /** The records that a run adds, in order. */
  ghost function RecordsOf(acts: seq<Action>): seq<AlertRecord> {
    if acts == [] then [] else RecordOf(acts[0]) + RecordsOf(acts[1..])
  }

  /** The outcomes of its writes, in order. */
  ghost function OutcomesOf(acts: seq<Action>): seq<bool> {
    if acts == [] then [] else OutcomeOf(acts[0]) + OutcomesOf(acts[1..])
  }

  /** A batch has failed exactly when it was written with outcome false. */
  ghost predicate FailedAre(log: Log, outcomes: seq<bool>) {
    && |log.calls| == |outcomes|
    && forall i :: i in log.failed <==> exists k :: 0 <= k < |outcomes| && log.calls[k] == i && !outcomes[k]
  }

  lemma StepAdds(cfg: Config, sh: Shared, log: Log, pc: Pc, act: Action)
    requires Ready(sh, log, pc, act)
    ensures Effect(cfg, sh, log, pc, act).log.added == log.added + RecordOf(act)
  {
    if !act.AddRecord? && !act.TakeBatch? {
      DataFrame(cfg, sh, log, pc, act);
      hide Effect;
    }
  }

  lemma {:induction false} RunAdds(cfg: Config, st: State, acts: seq<Action>)
    requires Legal(cfg, st, acts)
    ensures Run(cfg, st, acts).log.added == st.log.added + RecordsOf(acts)
    decreases |acts|
  {
    hide Effect, Ready, RecordOf;
    if acts == [] {
    } else {
      StepAdds(cfg, st.shared, st.log, PcOf(st, acts[0].a), acts[0]);
      RunAdds(cfg, Next(cfg, st, acts[0]), acts[1..]);
    }
  }

  lemma StepOutcome(cfg: Config, sh: Shared, log: Log, pc: Pc, act: Action, outcomes: seq<bool>)
    requires Ready(sh, log, pc, act) && FailedAre(log, outcomes)
    ensures FailedAre(Effect(cfg, sh, log, pc, act).log, outcomes + OutcomeOf(act))
  {
    if act.CreateBatch? {
      WriteOutcome(log, Effect(cfg, sh, log, pc, act).log, pc.batch, act.ok, outcomes);
    } else {
      assert outcomes + OutcomeOf(act) == outcomes;
      CallsFrame(cfg, sh, log, pc, act);
    }
  }

  lemma CallsFrame(cfg: Config, sh: Shared, log: Log, pc: Pc, act: Action)
    requires Ready(sh, log, pc, act) && !act.CreateBatch?
    ensures var m := Effect(cfg, sh, log, pc, act); m.log.calls == log.calls && m.log.failed == log.failed
  {
  }

  lemma WriteOutcome(log: Log, now: Log, b: nat, ok: bool, outcomes: seq<bool>)
    requires FailedAre(log, outcomes)
    requires now.calls == log.calls + [b] && now.failed == if ok then log.failed else log.failed + {b}
    ensures FailedAre(now, outcomes + [ok])
  {
    var more, n := outcomes + [ok], |outcomes|;
    forall i ensures i in now.failed <==> exists k :: 0 <= k < |more| && now.calls[k] == i && !more[k] {
      if i in log.failed {
        var k :| 0 <= k < n && log.calls[k] == i && !outcomes[k];
        assert now.calls[k] == i && !more[k];
      }
      if i == b && !ok {
        assert now.calls[n] == i && !more[n];
      }
      if k :| 0 <= k < |more| && now.calls[k] == i && !more[k] {
        assert k < n ==> log.calls[k] == i && !outcomes[k];
      }
    }
  }

  lemma {:induction false} RunOutcomes(cfg: Config, st: State, acts: seq<Action>, outcomes: seq<bool>)
    requires Legal(cfg, st, acts) && FailedAre(st.log, outcomes)
    ensures FailedAre(Run(cfg, st, acts).log, outcomes + OutcomesOf(acts))
    decreases |acts|
  {
    hide Effect, Ready, FailedAre, OutcomeOf;
    if acts == [] {
      assert outcomes + OutcomesOf(acts) == outcomes;
    } else {
      var first := OutcomeOf(acts[0]);
      StepOutcome(cfg, st.shared, st.log, PcOf(st, acts[0].a), acts[0], outcomes);
      RunOutcomes(cfg, Next(cfg, st, acts[0]), acts[1..], outcomes + first);
      assert (outcomes + first) + OutcomesOf(acts[1..]) == outcomes + OutcomesOf(acts);
    }
  }

  /** In every interleaving the batches in swap order and then the buffer are
      exactly the records that the run added, in order. */
  lemma NothingLost(cfg: Config, acts: seq<Action>)
    requires Legal(cfg, INITIAL, acts)
    ensures var st := Run(cfg, INITIAL, acts);
            Flatten(st.log.batches) + st.shared.buffer == st.log.added == RecordsOf(acts)
  {
    hide Run, Legal;
    InitialInv(cfg);
    RunInv(cfg, INITIAL, acts);
    RunAdds(cfg, INITIAL, acts);
    InvConserves(cfg, Run(cfg, INITIAL, acts));
    assert INITIAL.log.added + RecordsOf(acts) == RecordsOf(acts);
  }

  lemma InvConserves(cfg: Config, st: State)
    requires Inv(cfg, st)
    ensures Conserved(st)
  {
  }

  /** No batch is written twice and no record offered twice; a batch has failed exactly
      when its write did; only records of failed batches are offered, and none without a
      queue; and once no goroutine holds a batch, every batch has been written and, when
      there is a queue, every record of every failed one has been offered. */
  lemma WrittenAndOfferedOnce(cfg: Config, acts: seq<Action>)
    requires Legal(cfg, INITIAL, acts)
    ensures var st := Run(cfg, INITIAL, acts);
            && Distinct(st.log.calls) && Distinct(st.log.offers)
            && OffersJustified(cfg, st.log) && FailedAre(st.log, OutcomesOf(acts))
            && ((forall a :: !Busy(PcOf(st, a))) ==> AllSettled(cfg, st.log))
  {
    hide Run, Legal, Awake, StopsDrain, Counted, Conserved, FailedAre;
    InitialInv(cfg);
    RunInv(cfg, INITIAL, acts);
    var st := Run(cfg, INITIAL, acts);
    NoneFailed();
    RunOutcomes(cfg, INITIAL, acts, []);
    assert [] + OutcomesOf(acts) == OutcomesOf(acts);
    Justified(cfg, st.log);
    if forall a :: !Busy(PcOf(st, a)) {
      Settle(cfg, st);
    }
  }

  lemma NoneFailed()
    ensures FailedAre(INITIAL.log, [])
  {
  }

  ghost predicate OffersJustified(cfg: Config, log: Log) {
    forall i: nat, n: nat :: (i, n) in log.offers ==> cfg.hasQueue && i in log.failed && i < |log.batches| && n < |log.batches[i]|
  }

  lemma Justified(cfg: Config, log: Log)
    requires OfferedOnce(log) && FatesFit(cfg, log)
    ensures OffersJustified(cfg, log)
  {
    forall i: nat, n: nat | (i, n) in log.offers
      ensures cfg.hasQueue && i in log.failed && i < |log.batches| && n < |log.batches[i]|
    {
      assert Offered(log.status, i, n);
    }
  }

  ghost predicate AllSettled(cfg: Config, log: Log) {
    && (forall i :: 0 <= i < |log.batches| ==> i in log.calls)
    && (forall i :: i in log.failed ==> i < |log.batches|)
    && (cfg.hasQueue ==>
          forall i: nat, n: nat :: i < |log.batches| && i in log.failed && n < |log.batches[i]| ==> (i, n) in log.offers)
  }

  lemma Settle(cfg: Config, st: State)
    requires CalledOnce(st.log) && OfferedOnce(st.log) && FatesFit(cfg, st.log) && Owned(st)
    requires forall a :: !Busy(PcOf(st, a))
    ensures AllSettled(cfg, st.log)
  {
    forall i | 0 <= i < |st.log.batches| ensures !st.log.status[i].Held? && !Unfinished(st.log, i) {
      assert forall a :: !Writes(st, a, i) && !Requeues(st, a, i) by {
        assert forall a :: Writes(st, a, i) || Requeues(st, a, i) ==> Busy(PcOf(st, a));
      }
    }
    forall i: nat, n: nat | cfg.hasQueue && i < |st.log.batches| && i in st.log.failed && n < |st.log.batches[i]|
      ensures (i, n) in st.log.offers
    {
      assert !Unfinished(st.log, i);
      assert Offered(st.log.status, i, n);
    }
  }

  /** While the flush loop waits and the process lives, a full buffer is at most
      three steps away from being swapped out, without waiting for the ticker. */
  lemma FullBufferIsSwapped(cfg: Config, acts: seq<Action>, loop: nat) returns (more: seq<Action>)
    requires Legal(cfg, INITIAL, acts)
    requires var st := Run(cfg, INITIAL, acts);
             Full(cfg, st.shared) && !st.shared.crashed && PcOf(st, loop).LoopWait?
    ensures var st := Run(cfg, INITIAL, acts);
            && |more| <= 3 && Legal(cfg, st, more) && Run(cfg, st, more).shared.buffer == []
            && forall i :: 0 <= i < |more| ==> more[i].SendToken? || more[i].LoopToken? || more[i].TakeBatch?
  {
    hide Run, Legal, Full;
    InitialInv(cfg);
    RunInv(cfg, INITIAL, acts);
    InvAwake(cfg, Run(cfg, INITIAL, acts));
    more := DrainFull(cfg, Run(cfg, INITIAL, acts), loop);
  }

  lemma InvAwake(cfg: Config, st: State)
    requires Inv(cfg, st)
    ensures Awake(cfg, st)
  {
  }

  lemma DrainFull(cfg: Config, st: State, loop: nat) returns (more: seq<Action>)
    requires Awake(cfg, st) && Full(cfg, st.shared) && !st.shared.crashed && PcOf(st, loop).LoopWait?
    ensures |more| <= 3 && Legal(cfg, st, more) && Run(cfg, st, more).shared.buffer == []
    ensures forall i :: 0 <= i < |more| ==> more[i].SendToken? || more[i].LoopToken? || more[i].TakeBatch?
  {
    if st.shared.token {
      more := DrainByToken(cfg, st, loop);
    } else {
      var a :| Stirring(st, a);
      if PcOf(st, a).Flushing? {
        more := [TakeBatch(a)];
        RunOne(cfg, st, more[0], []);
      } else {
        PcAfter(cfg, st, SendToken(a), loop);
        var rest := DrainByToken(cfg, Next(cfg, st, SendToken(a)), loop);
        more := [SendToken(a)] + rest;
        RunOne(cfg, st, SendToken(a), rest);
      }
    }
  }

  lemma RunOne(cfg: Config, st: State, act: Action, rest: seq<Action>)
    requires Enabled(st, act) && Legal(cfg, Next(cfg, st, act), rest)
    ensures Legal(cfg, st, [act] + rest) && Run(cfg, st, [act] + rest) == Run(cfg, Next(cfg, st, act), rest)
  {
    assert ([act] + rest)[1..] == rest;
  }

  lemma DrainByToken(cfg: Config, st: State, loop: nat) returns (more: seq<Action>)
    requires !st.shared.crashed && st.shared.token && PcOf(st, loop).LoopWait?
    ensures |more| == 2 && Legal(cfg, st, more) && Run(cfg, st, more).shared.buffer == []
    ensures forall i :: 0 <= i < |more| ==> more[i].LoopToken? || more[i].TakeBatch?
  {
    var mid := Next(cfg, st, LoopToken(loop));
    RunOne(cfg, mid, TakeBatch(loop), []);
    RunOne(cfg, st, LoopToken(loop), [TakeBatch(loop)]);
    more := [LoopToken(loop)] + [TakeBatch(loop)];
  }

  /** Once a stop call has closed the channel it is flushing until it returns; and
      when it has returned, whatever is still in the buffer was added after the call
      took effect. */
  lemma StopDrained(cfg: Config, acts: seq<Action>)
    requires Legal(cfg, INITIAL, acts)
    ensures var st := Run(cfg, INITIAL, acts);
            && (st.shared.stopClosed && (forall a :: !Stopping(PcOf(st, a))) ==> |st.log.stopped| == 1)
            && (forall k :: 0 <= k < |st.log.stopped| ==> AddedSince(st, st.log.stopped[k]))
  {
    InitialInv(cfg);
    RunInv(cfg, INITIAL, acts);
    var st := Run(cfg, INITIAL, acts);
    hide Run, Legal;
    assert st.log.added[Swapped(st)..] == st.shared.buffer;
    if st.shared.stopClosed && forall a :: !Stopping(PcOf(st, a)) {
      assert forall a :: a in st.actors ==> PcOf(st, a) == st.actors[a];
      assert StoppingActors(st.actors) == {};
    }
  }

  /** Everything in the buffer was added after the first `mark` records. */
  ghost predicate AddedSince(st: State, mark: nat) {
    exists n: nat :: mark <= n <= |st.log.added| && st.shared.buffer == st.log.added[n..]
  }

  /** The process panics exactly when the channel is closed a second time, which
      takes two effective starts and two effective stops; and once no stop call is
      about to close the channel, two effective stops are all it takes. */
  lemma CrashNeedsRestart(cfg: Config, acts: seq<Action>)
    requires Legal(cfg, INITIAL, acts)
    ensures var st := Run(cfg, INITIAL, acts);
            && (st.shared.crashed <==> st.log.closes >= 2)
            && (st.shared.crashed ==> st.log.starts >= 2 && st.log.stops >= 2)
            && ((forall a :: !PcOf(st, a).Closing?) ==> (st.shared.crashed <==> st.log.stops >= 2))
  {
    InitialInv(cfg);
    RunInv(cfg, INITIAL, acts);
    var st := Run(cfg, INITIAL, acts);
    hide Run, Legal;
    if forall a :: !PcOf(st, a).Closing? {
      assert forall a :: a in st.actors ==> PcOf(st, a) == st.actors[a];
      assert ClosingActors(st.actors) == {};
    }
  }

  /** Starting again after a stop and stopping again does panic. */
  lemma RestartCrashes(cfg: Config)
    ensures exists acts :: Legal(cfg, INITIAL, acts) && Run(cfg, INITIAL, acts).shared.crashed
  {
    var st := INITIAL;
    var first := StartStop(cfg, st, 1);
    var mid := Run(cfg, st, first);
    RunOne(cfg, mid, TakeBatch(0), []);
    var again := Next(cfg, mid, TakeBatch(0));
    var second := StartStop(cfg, again, 2);
    RunOne(cfg, mid, TakeBatch(0), second);
    RunTwo(cfg, st, first, [TakeBatch(0)] + second);
  }

  /** One start and one stop, up to the close, by goroutine 0. */
  lemma StartStop(cfg: Config, st: State, loop: nat) returns (acts: seq<Action>)
    requires !st.shared.crashed && !st.shared.running && PcOf(st, 0).Idle? && loop > 0 && loop !in st.actors
    ensures Legal(cfg, st, acts)
    ensures var now := Run(cfg, st, acts);
            && now.shared.crashed == st.shared.stopClosed && now.shared.stopClosed && !now.shared.running
            && now.shared.buffer == st.shared.buffer
            && now.actors.Keys == st.actors.Keys + {0, loop}
            && (!now.shared.crashed ==> PcOf(now, 0).Flushing? && PcOf(now, 0).after.Stopper?)
  {
    var s1 := Next(cfg, st, StartLock(0));
    var s2 := Next(cfg, s1, Spawn(0, loop));
    var s3 := Next(cfg, s2, StopLock(0));
    RunOne(cfg, s3, CloseStop(0), []);
    RunOne(cfg, s2, StopLock(0), [CloseStop(0)]);
    RunOne(cfg, s1, Spawn(0, loop), [StopLock(0)] + [CloseStop(0)]);
    RunOne(cfg, st, StartLock(0), [Spawn(0, loop)] + ([StopLock(0)] + [CloseStop(0)]));
    acts := [StartLock(0)] + ([Spawn(0, loop)] + ([StopLock(0)] + [CloseStop(0)]));
  }

  lemma {:induction false} RunTwo(cfg: Config, st: State, first: seq<Action>, second: seq<Action>)
    requires Legal(cfg, st, first) && Legal(cfg, Run(cfg, st, first), second)
    ensures Legal(cfg, st, first + second) && Run(cfg, st, first + second) == Run(cfg, Run(cfg, st, first), second)
    decreases |first|
  {
    hide Next, Enabled;
    if first == [] {
      assert first + second == second;
    } else {
      RunTwo(cfg, Next(cfg, st, first[0]), first[1..], second);
      assert first + second == [first[0]] + (first[1..] + second);
      RunOne(cfg, st, first[0], first[1..] + second);
    }
  }
}
