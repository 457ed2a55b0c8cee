/** Workers that share a lease, crash, lose it in the middle of a batch and take it over from each
    other: who may move the cursor, and what a finished sweep has covered. */
module SweepCoverage {
  import opened Prelude
  import opened Paging
  import opened JobLease
  import Idempotency
  import JobKeys

  type ItemId = nat

  // ---------------------------------------------------------------------------
  // Items as idempotent requests
  // ---------------------------------------------------------------------------

  /** How often each item's effect has been applied. */
  type Applied = map<ItemId, nat>

  type Engine = Idempotency.State<Applied, ItemId, ()>

  type Request = Idempotency.Request<Applied, ItemId, ()>

  function Count(applied: Applied, x: ItemId): nat { if x in applied then applied[x] else 0 }

  const JOB := "order-completion-sweep"

  /** The one constant key an item is worked on under, whoever works on it and however often. */
  function KeyFor(x: ItemId): Idempotency.Key {
    Idempotency.Key("internal", JOB, JobKeys.JobOperationKey(JOB, JobKeys.Decimal(x)))
  }

  lemma KeysDiffer(x: ItemId, y: ItemId)
    ensures KeyFor(x) == KeyFor(y) <==> x == y
  {
    JobKeys.JobOperationKeysNeverCollide(JOB, JobKeys.Decimal(x), JOB, JobKeys.Decimal(y));
    if JobKeys.Decimal(x) == JobKeys.Decimal(y) { JobKeys.DecimalInjective(x, y); }
  }

  /** One attempt at an item; a throw stands for everything that may roll its transaction back. */
  datatype Task = Task(item: ItemId, throws: bool)

  function RequestFor(task: Task): Request {
    Idempotency.Request(KeyFor(task.item), task.item,
                        (applied: Applied) => if task.throws then Idempotency.Threw
                                              else Idempotency.Committed(applied[task.item := Count(applied, task.item) + 1], ()))
  }

  // ---------------------------------------------------------------------------
  // Workers
  // ---------------------------------------------------------------------------

  /** A running worker. `heldUntil` is the expiry it last wrote; `page` is the batch it is working on,
      of which it has dealt with the first `done` items; `inFlight` is its attempt at the next one. */
  datatype Worker = Worker(cursor: JobCursor, heldUntil: Time, page: Option<seq<ItemId>>, done: nat, inFlight: Option<nat>)

  /** `owed` are the items that have been eligible ever since the current sweep began and that nobody
      has attempted since then. `tasks` are all attempts ever begun; where they stand is the engine's
      business, so attempts of several workers at one item may overlap in any way. */
  datatype State = State(
    batchSize: nat,
    now: Time,
    row: Option<Lease>,
    workers: map<OwnerId, Worker>,
    retired: set<OwnerId>,
    eligible: set<ItemId>,
    owed: set<ItemId>,
    tasks: map<nat, Task>,
    engine: Engine)

  datatype Step =
    | Tick(elapsed: nat)
    | BecomeEligible(x: ItemId)
    | BecomeIneligible(x: ItemId)
    | Start(w: OwnerId, sampledAt: Time, duration: nat)
    | ReadPage(w: OwnerId)
    | BeginItem(w: OwnerId, a: nat, throws: bool)
    | Perform(e: Idempotency.Step<Applied, ItemId, ()>)
    | EndItem(w: OwnerId)
    | RenewLease(w: OwnerId, sampledAt: Time, duration: nat)
    | Stop(w: OwnerId)
    | Crash(w: OwnerId)

  /** The find, the commit or the replay of an attempt, each a step of its own. */
  predicate IsEngineWork(e: Idempotency.Step<Applied, ItemId, ()>) { e.Find? || e.Commit? || e.Replay? }

  predicate AtItem(s: State, w: OwnerId) {
    w in s.workers && s.workers[w].page.Some? && s.workers[w].done < |s.workers[w].page.value|
  }

  function ItemAt(s: State, w: OwnerId): ItemId
    requires AtItem(s, w)
  {
    s.workers[w].page.value[s.workers[w].done]
  }

  /** The worker's attempt at its next item has been answered. */
  predicate Answered(s: State, w: OwnerId) {
    && AtItem(s, w) && s.workers[w].inFlight.Some?
    && s.workers[w].inFlight.value in s.engine.attempts && s.engine.attempts[s.workers[w].inFlight.value].Done?
  }

  /** A worker that goes away leaves its attempt behind, which may still commit. */
  function Leave(s: State, w: OwnerId): State {
    s.(workers := s.workers - {w}, retired := s.retired + {w})
  }

  function NextCursor(s: State, page: seq<ItemId>): JobCursor {
    EncodeBatchCursor(|page| < s.batchSize, LastOf(page))
  }

  function Next(s: State, step: Step): State {
    match step
    case Tick(elapsed) => s.(now := s.now + elapsed)
    case BecomeEligible(x) => s.(eligible := s.eligible + {x})
    case BecomeIneligible(x) => s.(eligible := s.eligible - {x}, owed := s.owed - {x})
    case Start(w, sampledAt, duration) =>
      // An owner id is used by one invocation only; the clock may have moved on since it was sampled.
      if w in s.workers || w in s.retired || sampledAt > s.now then s
      else
        var acquired := Acquire(s.row, w, sampledAt + duration, sampledAt);
        if acquired.None? then s
        else
          s.(row := acquired,
             workers := s.workers[w := Worker(acquired.value.cursor, sampledAt + duration, None, 0, None)],
             // An acquisition at the top begins a sweep.
             owed := if DecodeAfterId(acquired.value.cursor).None? then s.eligible else s.owed)
    case ReadPage(w) =>
      if w !in s.workers || s.workers[w].page.Some? then s
      else
        var worker := s.workers[w];
        s.(workers := s.workers[w := worker.(page := Some(Page(s.eligible, DecodeAfterId(worker.cursor), s.batchSize)), done := 0)])
    case BeginItem(w, a, throws) =>
      if !AtItem(s, w) || s.workers[w].inFlight.Some? || a in s.tasks then s
      else
        var task := Task(ItemAt(s, w), throws);
        s.(tasks := s.tasks[a := task],
           engine := Idempotency.Next(s.engine, Idempotency.Start(a, RequestFor(task))),
           workers := s.workers[w := s.workers[w].(inFlight := Some(a))])
    case Perform(e) => if IsEngineWork(e) then s.(engine := Idempotency.Next(s.engine, e)) else s
    case EndItem(w) =>
      if !Answered(s, w) then s
      else s.(owed := s.owed - {ItemAt(s, w)},
              workers := s.workers[w := s.workers[w].(done := s.workers[w].done + 1, inFlight := None)])
    case RenewLease(w, sampledAt, duration) =>
      if w !in s.workers || s.workers[w].page.None? || s.workers[w].done < |s.workers[w].page.value| || sampledAt > s.now then s
      else
        var cursor := NextCursor(s, s.workers[w].page.value);
        var renewed := Renew(s.row, w, sampledAt + duration, cursor, sampledAt);
        if renewed.None? then Leave(s, w)
        else
          s.(row := renewed,
             workers := s.workers[w := Worker(cursor, sampledAt + duration, None, 0, None)],
             // A drained batch ends the sweep; the next one begins from the top.
             owed := if cursor.Null? then s.eligible else s.owed)
    case Stop(w) => if w !in s.workers then s else Leave(s, w).(row := Release(s.row, w))
    case Crash(w) => if w !in s.workers then s else Leave(s, w)
  }

  /** The batch size is at least one. */
  function Init(batchSize: nat): State {
    State(if batchSize == 0 then 1 else batchSize, 0, None, map[], {}, {}, {}, map[],
          Idempotency.State(Idempotency.Table(map[], map[]), map[]))
  }

  function Exec(s: State, steps: seq<Step>): State
    decreases |steps|
  {
    if steps == [] then s else Exec(Next(s, steps[0]), steps[1..])
  }

  // ---------------------------------------------------------------------------
  // The lease
  // ---------------------------------------------------------------------------

  function Persisted(s: State): JobCursor { if s.row.None? then Null else s.row.value.cursor }

  predicate OwnedBy(s: State, w: OwnerId) { s.row.Some? && s.row.value.owner == w }

  /** The worker may still rely on the expiry it last wrote. */
  predicate WithinLease(s: State, w: OwnerId) { w in s.workers && s.workers[w].heldUntil > s.now }

  predicate LeaseInv(s: State) {
    && s.batchSize >= 1
    && s.workers.Keys !! s.retired
    && (s.row.Some? ==> s.row.value.owner in s.workers || s.row.value.owner in s.retired)
    && (forall w <- s.workers | OwnedBy(s, w) :: s.workers[w].cursor == Persisted(s) && s.workers[w].heldUntil == s.row.value.until)
    && (forall w <- s.workers :: WithinLease(s, w) ==> OwnedBy(s, w))
  }

  /** At most one worker is within its lease, and it is the owner the row names. */
  lemma OneWorkerWithinItsLease(s: State, v: OwnerId, w: OwnerId)
    requires LeaseInv(s) && WithinLease(s, v) && WithinLease(s, w)
    ensures v == w && OwnedBy(s, v)
  {
  }

  /** The worker a step belongs to. */
  function Actor(step: Step): Option<OwnerId> {
    match step
    case Start(w, _, _) => Some(w)
    case ReadPage(w) => Some(w)
    case BeginItem(w, _, _) => Some(w)
    case EndItem(w) => Some(w)
    case RenewLease(w, _, _) => Some(w)
    case Stop(w) => Some(w)
    case Crash(w) => Some(w)
    case _ => None
  }

  /** Only the owner ever moves the persisted cursor, only by renewing; and a lease changes hands only
      once it has expired, so a stale worker neither releases nor overwrites its successor's. */
  lemma OnlyTheOwnerMovesTheCursor(s: State, step: Step)
    requires LeaseInv(s)
    ensures Persisted(Next(s, step)) != Persisted(s) ==> step.RenewLease? && OwnedBy(s, step.w) && OwnedBy(Next(s, step), step.w)
    ensures Next(s, step).row != s.row ==>
              && Actor(step).Some?
              && (OwnedBy(s, Actor(step).value) || (step.Start? && (s.row.None? || s.row.value.until <= s.now)))
  {
  }

  /** A worker that stops hands its lease on at once, and one that crashes when the lease expires: the next
      worker owns it from then on and resumes from the persisted cursor. */
  lemma SuccessorResumesAtTheCursor(s: State, w: OwnerId, gone: Step, v: OwnerId, elapsed: nat, duration: nat)
    requires LeaseInv(s) && w in s.workers && OwnedBy(s, w) && v !in s.workers && v !in s.retired
    requires gone == Stop(w) || (gone == Crash(w) && s.row.value.until <= s.now + elapsed)
    ensures var left := Next(Next(s, gone), Tick(elapsed));
            var after := Next(left, Start(v, left.now, duration));
            && w !in after.workers && w in after.retired
            && v in after.workers && OwnedBy(after, v) && Persisted(after) == Persisted(s)
            && after.workers[v].cursor == Persisted(s) && after.workers[v].page.None? && after.workers[v].inFlight.None?
            && (duration > 0 ==> WithinLease(after, v))
  {
  }

  // ---------------------------------------------------------------------------
  // Coverage
  // ---------------------------------------------------------------------------

  predicate PageCovers(s: State, worker: Worker) {
    worker.page.Some? ==>
      && worker.done <= |worker.page.value|
      && forall x <- s.owed :: Reached(x, DecodeAfterId(worker.cursor), s.batchSize, worker.page.value) ==> x in worker.page.value[worker.done..]
  }

  ghost predicate CoverInv(s: State) {
    && s.owed <= s.eligible
    && (forall x <- s.owed :: Beyond(x, DecodeAfterId(Persisted(s))))
    && (forall w <- s.workers | OwnedBy(s, w) :: PageCovers(s, s.workers[w]))
  }

  /** A worker in flight has an attempt at its next item. */
  predicate InFlightOk(s: State, w: OwnerId)
    requires w in s.workers
  {
    s.workers[w].inFlight.Some? ==>
      && AtItem(s, w) && s.workers[w].inFlight.value in s.tasks && s.workers[w].inFlight.value in s.engine.attempts
      && s.tasks[s.workers[w].inFlight.value].item == ItemAt(s, w)
  }

  ghost predicate CountsOk(table: Idempotency.Table<Applied, ItemId, ()>) {
    && (forall x: ItemId :: Count(table.store, x) == if KeyFor(x) in table.records then 1 else 0)
    && (forall x: ItemId :: KeyFor(x) in table.records ==> table.records[KeyFor(x)].hash == x)
  }

  /** Every attempt is what its task says, and an item's effect is applied once it is recorded. */
  ghost predicate EngineInv(tasks: map<nat, Task>, engine: Engine) {
    && Idempotency.Inv(engine)
    && (forall a <- engine.attempts :: a in tasks && engine.attempts[a].q == RequestFor(tasks[a]))
    && CountsOk(engine.table)
  }

  ghost predicate Inv(s: State) {
    LeaseInv(s) && CoverInv(s) && EngineInv(s.tasks, s.engine) && forall w <- s.workers :: InFlightOk(s, w)
  }

  /** The step ends a sweep: the batch it renews after came back short, and the cursor returns to the top. */
  predicate Finishes(s: State, step: Step) {
    && step.RenewLease? && step.w in s.workers && s.workers[step.w].page.Some?
    && s.workers[step.w].done == |s.workers[step.w].page.value| && step.sampledAt <= s.now
    && NextCursor(s, s.workers[step.w].page.value).Null?
    && Renew(s.row, step.w, step.sampledAt + step.duration, Null, step.sampledAt).Some?
  }

  lemma ReadKeeps(s: State, w: OwnerId)
    requires Inv(s)
    ensures Inv(Next(s, ReadPage(w)))
  {
    var after := Next(s, ReadPage(w));
    if after != s {
      var page := after.workers[w].page.value;
      assert page[0..] == page;
      forall x <- s.owed | Reached(x, DecodeAfterId(s.workers[w].cursor), s.batchSize, page) ensures x in page {
        PageSkipsNothing(s.eligible, DecodeAfterId(s.workers[w].cursor), s.batchSize, x);
      }
    }
  }

  lemma BeginKeepsEngine(tasks: map<nat, Task>, engine: Engine, a: nat, task: Task)
    requires EngineInv(tasks, engine) && a !in tasks
    ensures EngineInv(tasks[a := task], Idempotency.Next(engine, Idempotency.Start(a, RequestFor(task))))
  {
    Idempotency.StepKeeps(engine, Idempotency.Start(a, RequestFor(task)));
  }

  lemma ApplyingKeepsCounts(table: Idempotency.Table<Applied, ItemId, ()>, x: ItemId)
    requires CountsOk(table) && KeyFor(x) !in table.records
    ensures CountsOk(Idempotency.Table(table.store[x := Count(table.store, x) + 1],
                                       table.records[KeyFor(x) := Idempotency.Record(x, ())]))
  {
    var after := Idempotency.Table(table.store[x := Count(table.store, x) + 1],
                                   table.records[KeyFor(x) := Idempotency.Record(x, ())]);
    forall y: ItemId
      ensures Count(after.store, y) == if KeyFor(y) in after.records then 1 else 0
      ensures KeyFor(y) in after.records ==> after.records[KeyFor(y)].hash == y
    {
      KeysDiffer(x, y);
    }
  }

  lemma PerformKeepsEngine(tasks: map<nat, Task>, engine: Engine, e: Idempotency.Step<Applied, ItemId, ()>)
    requires EngineInv(tasks, engine) && IsEngineWork(e)
    ensures EngineInv(tasks, Idempotency.Next(engine, e))
  {
    Idempotency.StepKeeps(engine, e);
    if e.a in engine.attempts && Idempotency.Next(engine, e).table != engine.table {
      ApplyingKeepsCounts(engine.table, tasks[e.a].item);
    }
  }

  /** Two attempts at one item whose look-ups both found nothing, as those of a stale worker and of its
      successor may: whichever commits first applies the effect, and the other rolls its own back and
      replays. */
  lemma OverlappingAttemptsApplyOnce(tasks: map<nat, Task>, engine: Engine, a: nat, b: nat)
    requires EngineInv(tasks, engine) && a in engine.attempts && b in engine.attempts && a != b
    requires engine.attempts[a].Missed? && engine.attempts[b].Missed?
    requires tasks[a].item == tasks[b].item && !tasks[a].throws && !tasks[b].throws
    requires KeyFor(tasks[a].item) !in engine.table.records
    ensures var after := Idempotency.Next(Idempotency.Next(Idempotency.Next(engine,
                           Idempotency.Commit(a)), Idempotency.Commit(b)), Idempotency.Replay(b));
            && a in after.attempts && after.attempts[a].Done? && after.attempts[a].outcome == Idempotency.Executed(())
            && b in after.attempts && after.attempts[b].Done? && after.attempts[b].outcome == Idempotency.Replayed(())
            && Count(after.table.store, tasks[a].item) == 1
  {
    PerformKeepsEngine(tasks, engine, Idempotency.Commit(a));
    var first := Idempotency.Next(engine, Idempotency.Commit(a));
    assert first.attempts[b] == engine.attempts[b] && KeyFor(tasks[a].item) in first.table.records;
  }

  /** Neither the lease nor the coverage depends on attempts in flight. */
  lemma FlightIsNobodysBusiness(s: State, after: State)
    requires LeaseInv(s) && CoverInv(s)
    requires after == s.(tasks := after.tasks, engine := after.engine, workers := after.workers)
    requires after.workers.Keys == s.workers.Keys
    requires forall w <- s.workers :: after.workers[w] == s.workers[w].(inFlight := after.workers[w].inFlight)
    ensures LeaseInv(after) && CoverInv(after)
  {
  }

  lemma BeginKeeps(s: State, w: OwnerId, a: nat, throws: bool)
    requires Inv(s)
    ensures Inv(Next(s, BeginItem(w, a, throws)))
  {
    if AtItem(s, w) && s.workers[w].inFlight.None? && a !in s.tasks {
      var after := Next(s, BeginItem(w, a, throws));
      BeginKeepsEngine(s.tasks, s.engine, a, Task(ItemAt(s, w), throws));
      FlightIsNobodysBusiness(s, after);
      forall v <- s.workers ensures InFlightOk(after, v) {
        assert InFlightOk(s, v);
      }
    }
  }

  lemma PerformKeeps(s: State, e: Idempotency.Step<Applied, ItemId, ()>)
    requires Inv(s)
    ensures Inv(Next(s, Perform(e)))
  {
    if IsEngineWork(e) {
      var after := Next(s, Perform(e));
      PerformKeepsEngine(s.tasks, s.engine, e);
      FlightIsNobodysBusiness(s, after);
      forall w <- s.workers ensures InFlightOk(after, w) {
        assert InFlightOk(s, w);
      }
    }
  }

  lemma EndKeeps(s: State, w: OwnerId)
    requires Inv(s)
    ensures Inv(Next(s, EndItem(w)))
  {
    var after := Next(s, EndItem(w));
    if Answered(s, w) {
      var page, done := s.workers[w].page.value, s.workers[w].done;
      assert page[done..] == [page[done]] + page[done + 1..];
      assert after.owed == s.owed - {page[done]};
    }
  }

  /** A worker that is left alone with its next item gets an answer: the item is behind it, owed no longer,
      and unless the attempt threw its effect has been applied. */
  lemma LoneAttemptIsAnswered(s: State, w: OwnerId, a: nat, throws: bool)
    requires Inv(s) && AtItem(s, w) && s.workers[w].inFlight.None? && a !in s.tasks
    ensures var begun := Next(s, BeginItem(w, a, throws));
            var performed := Next(Next(begun, Perform(Idempotency.Find(a))), Perform(Idempotency.Commit(a)));
            var after := Next(performed, EndItem(w));
            && w in after.workers && after.workers[w] == s.workers[w].(done := s.workers[w].done + 1)
            && after.owed == s.owed - {ItemAt(s, w)}
            && (!throws ==> KeyFor(ItemAt(s, w)) in after.engine.table.records)
  {
    var begun := Next(s, BeginItem(w, a, throws));
    assert a !in s.engine.attempts;
    assert begun.engine.attempts[a] == Idempotency.Started(RequestFor(Task(ItemAt(s, w), throws)));
    EngineAnswers(begun.engine, a, Task(ItemAt(s, w), throws));
  }

  lemma EngineAnswers(engine: Engine, a: nat, task: Task)
    requires a in engine.attempts && engine.attempts[a] == Idempotency.Started(RequestFor(task))
    ensures var after := Idempotency.Next(Idempotency.Next(engine, Idempotency.Find(a)), Idempotency.Commit(a));
            && a in after.attempts && after.attempts[a].Done?
            && (!task.throws ==> KeyFor(task.item) in after.table.records)
  {
  }

  /** At the end of a batch its owner has attempted everything owed that the batch reached. */
  lemma NothingReachedIsOwed(s: State, w: OwnerId, x: ItemId)
    requires Inv(s) && w in s.workers && OwnedBy(s, w) && x in s.owed
    requires s.workers[w].page.Some? && s.workers[w].done == |s.workers[w].page.value|
    ensures var page := s.workers[w].page.value; |page| >= s.batchSize && page[|page| - 1] < x
  {
    var page := s.workers[w].page.value;
    assert page[|page|..] == [];
    assert !Reached(x, DecodeAfterId(s.workers[w].cursor), s.batchSize, page);
  }

  lemma RenewKeeps(s: State, w: OwnerId, sampledAt: Time, duration: nat)
    requires Inv(s)
    ensures Inv(Next(s, RenewLease(w, sampledAt, duration)))
  {
    var after := Next(s, RenewLease(w, sampledAt, duration));
    if after != s && w in after.workers {
      forall x <- after.owed ensures Beyond(x, DecodeAfterId(Persisted(after))) {
        if !Persisted(after).Null? { NothingReachedIsOwed(s, w, x); }
      }
    }
  }

  lemma NextKeeps(s: State, step: Step)
    requires Inv(s)
    ensures Inv(Next(s, step))
  {
    match step
    case ReadPage(w) => ReadKeeps(s, w);
    case BeginItem(w, a, throws) => BeginKeeps(s, w, a, throws);
    case Perform(e) => PerformKeeps(s, e);
    case EndItem(w) => EndKeeps(s, w);
    case RenewLease(w, sampledAt, duration) => RenewKeeps(s, w, sampledAt, duration);
    case Start(w, sampledAt, duration) => StartKeeps(s, w, sampledAt, duration);
    case _ =>
  }

  lemma StartKeeps(s: State, w: OwnerId, sampledAt: Time, duration: nat)
    requires Inv(s)
    ensures Inv(Next(s, Start(w, sampledAt, duration)))
  {
  }

  lemma {:induction false} RunKeeps(s: State, steps: seq<Step>)
    requires Inv(s)
    ensures Inv(Exec(s, steps))
    decreases |steps|
  {
    if steps == [] {
    } else {
      NextKeeps(s, steps[0]);
      RunKeeps(Next(s, steps[0]), steps[1..]);
    }
  }

  /** However workers crash, stall and take over, and however their attempts at one item overlap, the
      lease has one user at a time and no item's effect is applied twice. */
  lemma EveryRunIsSafe(batchSize: nat, steps: seq<Step>, v: OwnerId, w: OwnerId, x: ItemId)
    ensures var s := Exec(Init(batchSize), steps);
            && (WithinLease(s, v) && WithinLease(s, w) ==> v == w && OwnedBy(s, v))
            && Count(s.engine.table.store, x) == (if KeyFor(x) in s.engine.table.records then 1 else 0)
  {
    RunKeeps(Init(batchSize), steps);
    var s := Exec(Init(batchSize), steps);
    if WithinLease(s, v) && WithinLease(s, w) { OneWorkerWithinItsLease(s, v, w); }
  }

  /** When a sweep finishes nothing is owed any more. */
  lemma FinishedSweepOwesNothing(s: State, step: Step)
    requires Inv(s) && Finishes(s, step)
    ensures s.owed == {} && Next(s, step).owed == s.eligible && Persisted(Next(s, step)) == Null
  {
    forall x <- s.owed ensures false { NothingReachedIsOwed(s, step.w, x); }
  }

  /** The step takes the lease with nothing of a sweep done: the very first acquisition, or one of a
      lease given back or abandoned at the top. */
  predicate AcquiresAtTop(s: State, step: Step) {
    && step.Start? && step.w !in s.workers && step.w !in s.retired && step.sampledAt <= s.now
    && Acquire(s.row, step.w, step.sampledAt + step.duration, step.sampledAt).Some?
    && DecodeAfterId(Persisted(s)).None?
  }

  /** A sweep begins when a worker starts at the top, and when the sweep before it ends. */
  predicate Begins(s: State, step: Step) { AcquiresAtTop(s, step) || Finishes(s, step) }

  predicate EligibleThroughout(s: State, steps: seq<Step>, x: ItemId)
    decreases |steps|
  {
    x in s.eligible && (steps == [] || EligibleThroughout(Next(s, steps[0]), steps[1..], x))
  }

  /** The step completes some worker's attempt at the item. */
  predicate Attempts(s: State, step: Step, x: ItemId) {
    step.EndItem? && Answered(s, step.w) && ItemAt(s, step.w) == x
  }

  /** That attempt threw and left no trace. */
  predicate Fails(s: State, step: Step, x: ItemId) {
    Attempts(s, step, x) && s.engine.attempts[s.workers[step.w].inFlight.value].outcome.Failed?
  }

  predicate AttemptedDuring(s: State, steps: seq<Step>, x: ItemId)
    decreases |steps|
  {
    steps != [] && (Attempts(s, steps[0], x) || AttemptedDuring(Next(s, steps[0]), steps[1..], x))
  }

  predicate FailsDuring(s: State, steps: seq<Step>, x: ItemId)
    decreases |steps|
  {
    steps != [] && (Fails(s, steps[0], x) || FailsDuring(Next(s, steps[0]), steps[1..], x))
  }

  lemma {:induction false} OwedUntilAttempted(s: State, steps: seq<Step>, x: ItemId)
    requires Inv(s) && x in s.owed && EligibleThroughout(s, steps, x) && !AttemptedDuring(s, steps, x)
    ensures x in Exec(s, steps).owed
    decreases |steps|
  {
    if steps == [] {
    } else {
      var next := Next(s, steps[0]);
      NextKeeps(s, steps[0]);
      assert x in next.eligible;
      OwedUntilAttempted(next, steps[1..], x);
    }
  }

  /** An attempt that did not throw found the item's effect applied, or applied it. */
  lemma AnsweredIsApplied(s: State, w: OwnerId)
    requires Inv(s) && Answered(s, w) && !s.engine.attempts[s.workers[w].inFlight.value].outcome.Failed?
    ensures KeyFor(ItemAt(s, w)) in s.engine.table.records
  {
    var a := s.workers[w].inFlight.value;
    assert InFlightOk(s, w);
    assert Idempotency.OutcomeStands(s.engine.table, s.engine.attempts[a].q, s.engine.attempts[a].outcome);
  }

  lemma {:induction false} AppliedStays(s: State, steps: seq<Step>, x: ItemId)
    requires KeyFor(x) in s.engine.table.records
    ensures KeyFor(x) in Exec(s, steps).engine.table.records
    decreases |steps|
  {
    if steps == [] {
    } else {
      AppliedStays(Next(s, steps[0]), steps[1..], x);
    }
  }

  lemma {:induction false} AttemptedIsApplied(s: State, steps: seq<Step>, x: ItemId)
    requires Inv(s) && AttemptedDuring(s, steps, x) && !FailsDuring(s, steps, x)
    ensures KeyFor(x) in Exec(s, steps).engine.table.records
    decreases |steps|
  {
    if Attempts(s, steps[0], x) {
      AnsweredIsApplied(s, steps[0].w);
      AppliedStays(s, steps, x);
    } else {
      NextKeeps(s, steps[0]);
      AttemptedIsApplied(Next(s, steps[0]), steps[1..], x);
    }
  }

  lemma SweepCovers(begun: State, steps: seq<Step>, last: Step, x: ItemId)
    requires Inv(begun) && begun.owed == begun.eligible
    requires EligibleThroughout(begun, steps, x) && Finishes(Exec(begun, steps), last)
    ensures AttemptedDuring(begun, steps, x)
    ensures !FailsDuring(begun, steps, x) ==> Count(Exec(begun, steps).engine.table.store, x) == 1
  {
    RunKeeps(begun, steps);
    FinishedSweepOwesNothing(Exec(begun, steps), last);
    if !AttemptedDuring(begun, steps, x) {
      OwedUntilAttempted(begun, steps, x);
      assert false;
    }
    if !FailsDuring(begun, steps, x) { AttemptedIsApplied(begun, steps, x); }
  }

  lemma BegunSweepOwesEverything(s: State, first: Step)
    requires Inv(s) && Begins(s, first)
    ensures Inv(Next(s, first)) && Next(s, first).owed == Next(s, first).eligible
  {
    NextKeeps(s, first);
  }

  /** Coverage: from the beginning of a sweep to its end, across any crashes, expiries and takeovers in
      between, every item that stays eligible is attempted at least once; and unless one of those
      attempts threw, its effect has by then been applied exactly once. */
  lemma SweepAttemptsEveryStandingItem(batchSize: nat, before: seq<Step>, first: Step, steps: seq<Step>, last: Step, x: ItemId)
    requires Begins(Exec(Init(batchSize), before), first)
    requires EligibleThroughout(Next(Exec(Init(batchSize), before), first), steps, x)
    requires Finishes(Exec(Next(Exec(Init(batchSize), before), first), steps), last)
    ensures var begun := Next(Exec(Init(batchSize), before), first);
            && AttemptedDuring(begun, steps, x)
            && (!FailsDuring(begun, steps, x) ==> Count(Exec(begun, steps).engine.table.store, x) == 1)
  {
    RunKeeps(Init(batchSize), before);
    BegunSweepOwesEverything(Exec(Init(batchSize), before), first);
    SweepCovers(Next(Exec(Init(batchSize), before), first), steps, last, x);
  }
}
