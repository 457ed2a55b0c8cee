/** The order services and their jobs as the programs they are: gateway writes that update rows in
    place, transactions that restore them on a throw, and batch loops. Each is proved to do what one
    worker's actions do in `Marketplace` when no other worker interferes. */
module OrderServices {
  import opened Prelude
  import opened OrderStateMachine
  import opened ListeningWindow
  import opened Marketplace
  import opened HoldInvariant
  import opened HoldGuarantees
  import opened Paging

  // ---------------------------------------------------------------------------
  // One command, undisturbed
  // ---------------------------------------------------------------------------

  datatype Shared = Shared(db: Db, records: map<RecordKey, Record>)

  ghost predicate Sound(shared: Shared) { Inv(State(shared.db, shared.records, map[])) }

  function Alone(shared: Shared, key: RecordKey, op: Operation, config: Option<Config>, now: Time): (Shared, Outcome) {
    if key in shared.records then (shared, Answer(shared.records[key], op))
    else if config.None? then (shared, Outcome.Failed)
    else
      match RunEffect(shared.db, op, LoadContext(shared.db, op.orderId), config.value, now)
      case Threw => (shared, Outcome.Failed)
      case Settled(db, response) => (Shared(db, shared.records[key := Record(Identity(op), response)]), Executed(response))
  }

  lemma CommitSettles(s: State, a: AttemptId, config: Option<Config>, now: Time)
    requires a in s.attempts && s.attempts[a].Prepared? && s.attempts[a].key !in s.records
    requires s.attempts[a].ctx == LoadContext(s.db, s.attempts[a].op.orderId)
    ensures var Prepared(key, op, _) := s.attempts[a];
            var (shared, outcome) := Alone(Shared(s.db, s.records), key, op, config, now);
            Next(s, Commit(a, config, now)) == State(shared.db, shared.records, s.attempts[a := Finished(key, op, outcome)])
  {
  }

  lemma HitStays(s: State, a: AttemptId, config: Option<Config>, now: Time)
    requires a in s.attempts && s.attempts[a].Finished?
    ensures Next(s, Load(a)) == s && Next(s, Commit(a, config, now)) == s
  {
  }

  lemma LookupHits(s: State, a: AttemptId, key: RecordKey, op: Operation)
    requires a in s.attempts && s.attempts[a] == Selected(key, op) && key in s.records
    ensures Next(s, Lookup(a)) == Advance(s, a, Finished(key, op, Answer(s.records[key], op)))
  {
  }

  lemma ExecThree(s: State, x: Step, y: Step, z: Step)
    ensures Exec(s, [x, y, z]) == Next(Next(Next(s, x), y), z)
  {
    assert [x, y, z][1..] == [y, z];
    assert [y, z][1..] == [z];
    assert [z][1..] == [];
    assert Exec(Next(s, x), [y, z]) == Exec(Next(Next(s, x), y), [z]);
  }

  /** What `Alone` computes is what one worker's uninterrupted actions do. */
  lemma AloneIsARun(s: State, a: AttemptId, key: RecordKey, op: Operation, config: Option<Config>, now: Time)
    requires a in s.attempts && s.attempts[a] == Selected(key, op)
    ensures var (shared, outcome) := Alone(Shared(s.db, s.records), key, op, config, now);
            Exec(s, [Lookup(a), Load(a), Commit(a, config, now)])
            == State(shared.db, shared.records, s.attempts[a := Finished(key, op, outcome)])
  {
    ExecThree(s, Lookup(a), Load(a), Commit(a, config, now));
    var looked := Next(s, Lookup(a));
    if key in s.records {
      LookupHits(s, a, key, op);
      HitStays(looked, a, config, now);
    } else {
      LookupMisses(s, a, key, op);
      LoadReads(looked, a, key, op);
      var loaded := Next(looked, Load(a));
      CommitSettles(loaded, a, config, now);
      var (shared, outcome) := Alone(Shared(s.db, s.records), key, op, config, now);
      assert loaded.attempts[a := Finished(key, op, outcome)] == s.attempts[a := Finished(key, op, outcome)];
    }
  }

  lemma AloneKeeps(shared: Shared, key: RecordKey, op: Operation, config: Option<Config>, now: Time)
    requires Sound(shared) && KeyOk(shared.db, key, op)
    ensures Sound(Alone(shared, key, op, config, now).0)
    ensures Extends(shared.db, Alone(shared, key, op, config, now).0.db)
    ensures OthersUntouched(shared.db, Alone(shared, key, op, config, now).0.db, op.orderId)
  {
    var s := State(shared.db, shared.records, map[0 := Selected(key, op)]);
    AloneIsARun(s, 0, key, op, config, now);
    RunKeeps(s, [Lookup(0), Load(0), Commit(0, config, now)]);
    if config.Some? {
      EffectTouchesOnlyItsOwnHold(shared.db, op, LoadContext(shared.db, op.orderId), config.value, now);
    }
  }

  // ---------------------------------------------------------------------------
  // A job's batch, undisturbed
  // ---------------------------------------------------------------------------

  function Batch(shared: Shared, job: Job, ids: seq<OrderId>, config: Option<Config>, now: Time): Shared
    decreases |ids|
  {
    if ids == [] then shared
    else
      var before := Batch(shared, job, ids[..|ids| - 1], config, now);
      var o := ids[|ids| - 1];
      Alone(before, JobKey(job, o), JobOperation(job, o, now), config, now).0
  }

  function DueIds(db: Db, job: Job, now: Time): set<OrderId> {
    set o | o in db.orders && Due(job, db.orders[o], now)
  }

  predicate BatchDone(before: Db, after: Db, job: Job, ids: seq<OrderId>, now: Time) {
    && (forall o <- ids :: Freed(after, job, o, now))
    && after.orders.Keys == before.orders.Keys
    && (forall o <- before.orders | o !in ids :: after.orders[o] == before.orders[o])
  }

  lemma AloneFreesOneMore(start: Db, before: Shared, job: Job, first: seq<OrderId>, o: OrderId, config: Config, now: Time)
    requires Sound(before) && BatchDone(start, before.db, job, first, now)
    requires o !in first && o in start.orders && Due(job, start.orders[o], now)
    ensures var after := Alone(before, JobKey(job, o), JobOperation(job, o, now), Some(config), now).0;
            Sound(after) && BatchDone(start, after.db, job, first + [o], now)
  {
    assert before.db.orders[o] == start.orders[o];
    DueItemIsFreed(State(before.db, before.records, map[]), job, o, config, now);
    AloneKeeps(before, JobKey(job, o), JobOperation(job, o, now), Some(config), now);
    var after := Alone(before, JobKey(job, o), JobOperation(job, o, now), Some(config), now).0;
    forall p <- first + [o] ensures Freed(after.db, job, p, now) {
      assert p == o || p in first;
    }
  }

  /** A job's batch frees the number of every order on its page, and touches no other order. */
  lemma {:induction false} BatchFreesItsPage(shared: Shared, job: Job, ids: seq<OrderId>, config: Config, now: Time)
    requires Sound(shared)
    requires forall i, j :: 0 <= i < j < |ids| ==> ids[i] != ids[j]
    requires forall o <- ids :: o in DueIds(shared.db, job, now)
    ensures Sound(Batch(shared, job, ids, Some(config), now))
    ensures BatchDone(shared.db, Batch(shared, job, ids, Some(config), now).db, job, ids, now)
    decreases |ids|
  {
    if ids == [] {
    } else {
      var first, o := ids[..|ids| - 1], ids[|ids| - 1];
      BatchFreesItsPage(shared, job, first, config, now);
      assert o in ids && o !in first && ids == first + [o];
      AloneFreesOneMore(shared.db, Batch(shared, job, first, Some(config), now), job, first, o, config, now);
    }
  }

  // ---------------------------------------------------------------------------
  // The recovery batch, undisturbed
  // ---------------------------------------------------------------------------

  lemma RecoveryTouchesOnlyItsOwnHold(db: Db, o: OrderId, hasActiveOffer: bool, heartbeatTimeoutSeconds: nat, now: Time)
    requires HoldInv(db) && Joined(db, o) && db.orders[o].status.Reserved?
    ensures var r := RecoverOne(db, LoadContext(db, o).value, hasActiveOffer, heartbeatTimeoutSeconds, now);
            r.Acted? && r.db.Some? && HoldInv(r.db.value) && OthersUntouched(db, r.db.value, o)
  {
    ReadContextOk(db, o);
    CurrentOrderHolds(db, o);
    RecoverOneResolves(db, o, hasActiveOffer, heartbeatTimeoutSeconds, now);
    RecoverOneKeeps(db, LoadContext(db, o).value, hasActiveOffer, heartbeatTimeoutSeconds, now);
  }

  predicate RecoveredOnly(start: Db, db: Db, ids: seq<OrderId>) {
    && db.orders.Keys == start.orders.Keys
    && (forall o <- ids :: o in start.orders && Resolved(db, o, start.orders[o].numberId))
    && (forall o <- db.orders | o !in ids :: db.orders[o] == start.orders[o])
  }

  /** Half way through a batch: the first `done` reservations are resolved, and what was read of the
      others under the locks is still true. */
  ghost predicate HalfRecovered(start: Db, db: Db, ids: seq<OrderId>, locked: seq<Option<Context>>, done: nat)
    requires |locked| == |ids| && done <= |ids|
  {
    && HoldInv(db) && RecoveredOnly(start, db, ids[..done])
    && forall k :: done <= k < |ids| ==>
         ids[k] in db.orders && db.orders[ids[k]].status.Reserved? && locked[k] == LoadContext(db, ids[k])
  }

  /** Recovering one reservation leaves the rows that were read of another one as they were. */
  lemma OtherContextStands(before: Db, after: Db, own: OrderId, o: OrderId)
    requires HoldInv(before) && OthersUntouched(before, after, own) && o != own
    requires o in before.orders && Holding(before.orders[o])
    ensures LoadContext(after, o) == LoadContext(before, o)
  {
    CurrentOrderHolds(before, o);
  }

  lemma RecoveredOneMore(start: Db, before: Db, after: Db, ids: seq<OrderId>, o: OrderId)
    requires RecoveredOnly(start, before, ids) && OthersUntouched(before, after, o)
    requires o in start.orders && o !in ids && Resolved(after, o, start.orders[o].numberId)
    ensures RecoveredOnly(start, after, ids + [o])
  {
  }

  lemma RecoversNext(start: Db, db: Db, ids: seq<OrderId>, locked: seq<Option<Context>>, done: nat,
                     hasActiveOffer: bool, heartbeatTimeoutSeconds: nat, now: Time)
    requires |locked| == |ids| && done < |ids| && HalfRecovered(start, db, ids, locked, done)
    requires forall i, j :: 0 <= i < j < |ids| ==> ids[i] != ids[j]
    ensures locked[done].Some?
    ensures var r := RecoverOne(db, locked[done].value, hasActiveOffer, heartbeatTimeoutSeconds, now);
            r.Acted? && r.db.Some? && HalfRecovered(start, r.db.value, ids, locked, done + 1)
  {
    var o := ids[done];
    ReadContextOk(db, o);
    RecoveryTouchesOnlyItsOwnHold(db, o, hasActiveOffer, heartbeatTimeoutSeconds, now);
    RecoverOneResolves(db, o, hasActiveOffer, heartbeatTimeoutSeconds, now);
    var after := RecoverOne(db, locked[done].value, hasActiveOffer, heartbeatTimeoutSeconds, now).db.value;
    assert ids[..done + 1] == ids[..done] + [o] && o !in ids[..done];
    RecoveredOneMore(start, db, after, ids[..done], o);
    forall k | done < k < |ids| ensures LoadContext(after, ids[k]) == LoadContext(db, ids[k]) {
      OtherContextStands(db, after, o, ids[k]);
    }
  }

  // ---------------------------------------------------------------------------
  // Reserving and activating in one transaction
  // ---------------------------------------------------------------------------

  datatype Reservation = Committed | DuplicateOrder | Contended

  predicate CanReserve(db: Db, o: OrderId, n: NumberId) {
    && o !in db.orders && n in db.numbers
    && db.numbers[n].status.Available? && db.numbers[n].enabled && db.numbers[n].currentOrder == None
  }

  function ReservationSteps(o: OrderId, n: NumberId, now: Time, expiresAt: Time): seq<Step> {
    [CreateOrder(o, n, now, expiresAt), Step.Reserve(o), Step.Activate(o, now)]
  }

  /** The rows a reservation leaves when it can be made: the order waits on the number, which is busy with it. */
  function ReservedRows(db: Db, o: OrderId, n: NumberId, now: Time, expiresAt: Time): Db
    requires n in db.numbers
  {
    db.(orders := db.orders[o := Order(n, 2, WaitingSms, false, now, now, expiresAt, None)],
        numbers := db.numbers[n := db.numbers[n].(status := Busy, currentOrder := Some(o))])
  }

  /** The rows half way: the order created, and then reserved. */
  function CreatedRows(db: Db, o: OrderId, n: NumberId, now: Time, expiresAt: Time): Db {
    db.(orders := db.orders[o := Order(n, 0, Created, false, now, now, expiresAt, None)])
  }

  function HeldRows(db: Db, o: OrderId, n: NumberId, now: Time, expiresAt: Time): Db
    requires n in db.numbers
  {
    var created := CreatedRows(db, o, n, now, expiresAt);
    var order := created.orders[o];
    created.(orders := created.orders[o := order.(status := OrderStatus.Reserved, version := order.version + 1)],
             numbers := created.numbers[n := db.numbers[n].(status := NumberStatus.Reserved, currentOrder := Some(o))])
  }

  lemma RowsAgree(db: Db, o: OrderId, n: NumberId, now: Time, expiresAt: Time)
    requires n in db.numbers
    ensures var held := HeldRows(db, o, n, now, expiresAt);
            var order := held.orders[o];
            ReservedRows(db, o, n, now, expiresAt) == held.(
              orders := held.orders[o := order.(status := WaitingSms, version := order.version + 1, windowStartsAt := now)],
              numbers := held.numbers[n := held.numbers[n].(status := Busy)])
  {
    var held := HeldRows(db, o, n, now, expiresAt);
    var order := held.orders[o];
    assert ReservedRows(db, o, n, now, expiresAt).orders
           == held.orders[o := order.(status := WaitingSms, version := order.version + 1, windowStartsAt := now)];
    assert ReservedRows(db, o, n, now, expiresAt).numbers == held.numbers[n := held.numbers[n].(status := Busy)];
  }

  lemma CreateStep(s: State, o: OrderId, n: NumberId, now: Time, expiresAt: Time)
    requires o !in s.db.orders && n in s.db.numbers
    ensures Next(s, CreateOrder(o, n, now, expiresAt))
            == s.(db := s.db.(orders := s.db.orders[o := Order(n, 0, Created, false, now, now, expiresAt, None)]))
  {
  }

  lemma ReserveStep(s: State, o: OrderId)
    requires o in s.db.orders && s.db.orders[o].status.Created? && s.db.orders[o].numberId in s.db.numbers
    requires var number := s.db.numbers[s.db.orders[o].numberId]; number.status.Available? && number.enabled && number.currentOrder == None
    ensures var order := s.db.orders[o]; var number := s.db.numbers[order.numberId];
            Next(s, Step.Reserve(o)) == s.(db := s.db.(
              orders := s.db.orders[o := order.(status := OrderStatus.Reserved, version := order.version + 1)],
              numbers := s.db.numbers[order.numberId := number.(status := NumberStatus.Reserved, currentOrder := Some(o))]))
  {
    assert Decide(Created, Available, false, Command.Reserve)
           == Apply(Created, Some(Available), OrderStatus.Reserved, NumberStatus.Reserved, None);
  }

  lemma ActivateStep(s: State, o: OrderId, now: Time)
    requires o in s.db.orders && s.db.orders[o].status.Reserved? && s.db.orders[o].numberId in s.db.numbers
    requires var number := s.db.numbers[s.db.orders[o].numberId]; number.status.Reserved? && number.currentOrder == Some(o)
    ensures var order := s.db.orders[o]; var number := s.db.numbers[order.numberId];
            Next(s, Step.Activate(o, now)) == s.(db := s.db.(
              orders := s.db.orders[o := order.(status := WaitingSms, version := order.version + 1, windowStartsAt := now)],
              numbers := s.db.numbers[order.numberId := number.(status := Busy)]))
  {
  }

  /** One transaction does what the three separate actions do one after another. */
  lemma ReservationIsThreeSteps(s: State, o: OrderId, n: NumberId, now: Time, expiresAt: Time)
    requires CanReserve(s.db, o, n)
    ensures Exec(s, ReservationSteps(o, n, now, expiresAt)) == s.(db := ReservedRows(s.db, o, n, now, expiresAt))
  {
    ExecThree(s, CreateOrder(o, n, now, expiresAt), Step.Reserve(o), Step.Activate(o, now));
    CreateStep(s, o, n, now, expiresAt);
    ReserveStep(s.(db := CreatedRows(s.db, o, n, now, expiresAt)), o);
    ActivateStep(s.(db := HeldRows(s.db, o, n, now, expiresAt)), o, now);
    RowsAgree(s.db, o, n, now, expiresAt);
  }

  lemma ReservationKeeps(db: Db, o: OrderId, n: NumberId, now: Time, expiresAt: Time)
    requires HoldInv(db) && CanReserve(db, o, n)
    ensures HoldInv(ReservedRows(db, o, n, now, expiresAt)) && Extends(db, ReservedRows(db, o, n, now, expiresAt))
    ensures OccupiedBy(ReservedRows(db, o, n, now, expiresAt), n, o)
  {
    var s := State(db, map[], map[]);
    ReservationIsThreeSteps(s, o, n, now, expiresAt);
    RunKeeps(s, ReservationSteps(o, n, now, expiresAt));
  }

  // ---------------------------------------------------------------------------
  // The programs
  // ---------------------------------------------------------------------------

  class OrderStore {
    var orders: map<OrderId, Order>
    var numbers: map<NumberId, PhoneNumber>
    var devices: map<DeviceId, Device>
    var records: map<RecordKey, Record>

    function Rows(): Db
      reads this
    { Db(orders, numbers, devices) }

    function View(): Shared
      reads this
    { Shared(Rows(), records) }

    constructor ()
      ensures View() == Shared(Init().db, map[])
    {
      orders, numbers, devices, records := map[], map[], map[], map[];
    }

    /** Releases a number from the order it is bound to; `false` when the row has moved on. */
    method ReleaseBoundNumber(n: NumberId, o: OrderId, from: NumberStatus, to: NumberStatus) returns (released: bool)
      modifies this`numbers
      ensures released <==> ReleaseNumber(old(Rows()), n, o, from, to).Some?
      ensures Rows() == ReleaseNumber(old(Rows()), n, o, from, to).GetOr(old(Rows()))
    {
      if n !in numbers || numbers[n].status != from || numbers[n].currentOrder != Some(o) {
        return false;
      }
      numbers := numbers[n := numbers[n].(status := to, currentOrder := None)];
      return true;
    }

    /** `false` stands for the contention error: the caller's transaction has to roll back. */
    method ApplyTerminalTransition(c: Context, d: Decision) returns (applied: bool)
      requires d.Apply?
      modifies this`orders, this`numbers
      ensures applied <==> ApplyTerminal(old(Rows()), c, d).Some?
      ensures applied ==> Rows() == ApplyTerminal(old(Rows()), c, d).value
    {
      if c.orderId !in orders || orders[c.orderId].version != c.version || orders[c.orderId].status != d.expectedOrder {
        return false;
      }
      var order := orders[c.orderId];
      orders := orders[c.orderId := order.(status := d.nextOrder, version := order.version + 1)];
      if d.nextNumber == c.numberStatus {
        return true;
      }
      applied := ReleaseBoundNumber(c.numberId, c.orderId, c.numberStatus, d.nextNumber);
    }

    method ApplyListeningHoldRelease(c: Context, completedAt: Time, next: NumberStatus, numberChanged: bool) returns (applied: bool)
      modifies this`orders, this`numbers
      ensures applied <==> ApplyHoldRelease(old(Rows()), c, completedAt, next, numberChanged).Some?
      ensures applied ==> Rows() == ApplyHoldRelease(old(Rows()), c, completedAt, next, numberChanged).value
    {
      if || c.orderId !in orders || orders[c.orderId].version != c.version
         || !orders[c.orderId].status.Success? || orders[c.orderId].completedAt.Some?
      {
        return false;
      }
      var order := orders[c.orderId];
      orders := orders[c.orderId := order.(completedAt := Some(completedAt), version := order.version + 1)];
      if !numberChanged {
        return true;
      }
      applied := ReleaseBoundNumber(c.numberId, c.orderId, c.numberStatus, next);
    }

    /** `None` stands for a throw: the rows may be half written and have to be restored. */
    method RunTerminalEffect(op: Operation, config: Config, now: Time) returns (response: Option<Response>)
      requires !op.CompleteOrder?
      modifies this`orders, this`numbers
      ensures match TerminalEffect(old(Rows()), op, LoadContext(old(Rows()), op.orderId), config, now)
              case Threw => response == None
              case Settled(db, r) => response == Some(r) && Rows() == db
    {
      var ctx := LoadContext(Rows(), op.orderId);
      if ctx.None? {
        return Some(Refused(NotFoundError));
      }
      var c := ctx.value;
      var d := Decide(c.orderStatus, c.numberStatus, c.otpReceived, CommandOf(op, c, config, now));
      match d
      case NoChange(target, _, disposition) =>
        response := Some(TerminalOk(c.orderId, target, op.reason, disposition));
      case Reject(code, _) =>
        response := Some(Refused(CodeOf(code)));
      case Apply(_, _, next, _, disposition) =>
        var applied := ApplyTerminalTransition(c, d);
        response := if applied then Some(TerminalOk(c.orderId, next, op.reason, disposition)) else None;
    }

    method RunCompleteEffect(op: Operation, config: Config, now: Time) returns (response: Option<Response>)
      requires op.CompleteOrder?
      modifies this`orders, this`numbers
      ensures match CompleteEffect(old(Rows()), op, LoadContext(old(Rows()), op.orderId), config, now)
              case Threw => response == None
              case Settled(db, r) => response == Some(r) && Rows() == db
    {
      var ctx := LoadContext(Rows(), op.orderId);
      if ctx.None? {
        return Some(Refused(NotFoundError));
      }
      var c := ctx.value;
      var observedAt: Time := op.instant.GetOr(now);
      var d := DecideHoldRelease(ListeningOrderOf(c), c.numberStatus, c.numberCurrentOrder,
                                 op.trigger, Finite(observedAt), ReleaseContextOf(c, config, observedAt));
      match d
      case AlreadyCompleted =>
        response := Some(CompleteOk(c.orderId, c.completedAt.GetOr(observedAt), None));
      case Refuse(_) =>
        response := Some(Refused(StateConflictError));
      case Release(_, next, numberChanged, disposition) =>
        var applied := ApplyListeningHoldRelease(c, observedAt, next, numberChanged);
        response := if applied then Some(CompleteOk(c.orderId, observedAt, disposition)) else None;
    }

    /** One command through the idempotency engine: look up, run, insert, or restore and report. */
    method RunCommand(key: RecordKey, op: Operation, config: Option<Config>, now: Time) returns (outcome: Outcome)
      modifies this`orders, this`numbers, this`records
      ensures (View(), outcome) == Alone(old(View()), key, op, config, now)
    {
      if key in records {
        return Answer(records[key], op);
      }
      if config.None? {
        return Outcome.Failed;
      }
      var savedOrders, savedNumbers := orders, numbers;
      var response;
      if op.CompleteOrder? {
        response := RunCompleteEffect(op, config.value, now);
      } else {
        response := RunTerminalEffect(op, config.value, now);
      }
      if response.None? {
        orders, numbers := savedOrders, savedNumbers;
        return Outcome.Failed;
      }
      records := records[key := Record(Identity(op), response.value)];
      return Executed(response.value);
    }

    /** The job's loop over a page: one command per order, each counted whatever came of it. */
    method RunPage(job: Job, ids: seq<OrderId>, config: Option<Config>, now: Time) returns (processed: nat)
      modifies this`orders, this`numbers, this`records
      ensures processed == |ids| && View() == Batch(old(View()), job, ids, config, now)
    {
      processed := 0;
      while processed < |ids|
        invariant 0 <= processed <= |ids|
        invariant View() == Batch(old(View()), job, ids[..processed], config, now)
      {
        var o := ids[processed];
        assert ids[..processed + 1][..processed] == ids[..processed];
        var _ := RunCommand(JobKey(job, o), JobOperation(job, o, now), config, now);
        processed := processed + 1;
      }
      assert ids[..|ids|] == ids;
    }

    /** One bounded batch of the timeout job or of the completion sweep. */
    method RunBatch(job: Job, cursor: JobCursor, batchSize: int, config: Option<Config>, now: Time) returns (r: BatchResult)
      modifies this`orders, this`numbers, this`records
      ensures var limit := if batchSize < 1 then 1 else batchSize;
              var ids := Page(DueIds(old(Rows()), job, now), DecodeAfterId(cursor), limit);
              && r == BatchResult(|ids|, EncodeBatchCursor(|ids| < limit, LastOf(ids)), |ids| < limit)
              && View() == Batch(old(View()), job, ids, config, now)
              && (Sound(old(View())) && config.Some? ==>
                    Sound(View()) && BatchDone(old(Rows()), Rows(), job, ids, now))
    {
      var limit := if batchSize < 1 then 1 else batchSize;
      var ids := Page(DueIds(Rows(), job, now), DecodeAfterId(cursor), limit);
      ghost var start := View();
      var processed := RunPage(job, ids, config, now);
      if Sound(start) && config.Some? {
        BatchFreesItsPage(start, job, ids, config.value, now);
      }
      r := BatchResult(processed, EncodeBatchCursor(|ids| < limit, LastOf(ids)), |ids| < limit);
    }

    /** Creates the order as `reserved`, binds the number, then activates both. Every guard that fails
        rolls the whole transaction back. */
    method CommitReservation(o: OrderId, n: NumberId, now: Time, expiresAt: Time) returns (outcome: Reservation)
      modifies this`orders, this`numbers
      ensures outcome.DuplicateOrder? <==> o in old(orders)
      ensures outcome.Committed? <==> CanReserve(old(Rows()), o, n)
      ensures Rows() == if outcome.Committed? then ReservedRows(old(Rows()), o, n, now, expiresAt) else old(Rows())
      ensures outcome.Committed? && HoldInv(old(Rows())) ==> HoldInv(Rows()) && OccupiedBy(Rows(), n, o)
    {
      if o in orders {
        return DuplicateOrder;
      }
      var savedOrders, savedNumbers := orders, numbers;
      orders := orders[o := Order(n, 1, OrderStatus.Reserved, false, now, now, expiresAt, None)];
      if n !in numbers || !numbers[n].status.Available? || !numbers[n].enabled || numbers[n].currentOrder != None {
        orders := savedOrders;
        return Contended;
      }
      numbers := numbers[n := numbers[n].(status := NumberStatus.Reserved, currentOrder := Some(o))];
      orders := orders[o := orders[o].(status := WaitingSms, windowStartsAt := now, version := orders[o].version + 1)];
      // The second compare-and-set guards what this transaction has just written, so it always matches.
      assert numbers[n].status.Reserved? && numbers[n].currentOrder == Some(o);
      numbers := numbers[n := numbers[n].(status := Busy)];
      assert numbers == savedNumbers[n := savedNumbers[n].(status := Busy, currentOrder := Some(o))];
      if HoldInv(old(Rows())) {
        ReservationKeeps(old(Rows()), o, n, now, expiresAt);
      }
      return Committed;
    }

    method PromoteReserved(c: Context, now: Time) returns (applied: bool)
      modifies this`orders, this`numbers
      ensures applied <==> Promote(old(Rows()), c.orderId, c.version, c.numberId, now).Some?
      ensures applied ==> Rows() == Promote(old(Rows()), c.orderId, c.version, c.numberId, now).value
    {
      if c.orderId !in orders || orders[c.orderId].version != c.version || !orders[c.orderId].status.Reserved? {
        return false;
      }
      orders := orders[c.orderId := orders[c.orderId].(status := WaitingSms, version := c.version + 1, windowStartsAt := now)];
      if c.numberId !in numbers || !numbers[c.numberId].status.Reserved? || numbers[c.numberId].currentOrder != Some(c.orderId) {
        return false;
      }
      numbers := numbers[c.numberId := numbers[c.numberId].(status := Busy)];
      return true;
    }

    /** `acted` as the job counts it; `threw` when a write found its row moved on. */
    method RecoverReservation(c: Context, hasActiveOffer: bool, heartbeatTimeoutSeconds: nat, now: Time)
      returns (acted: bool, threw: bool)
      modifies this`orders, this`numbers
      ensures match RecoverOne(old(Rows()), c, hasActiveOffer, heartbeatTimeoutSeconds, now)
              case LeaveIt => !acted && !threw && Rows() == old(Rows())
              case Acted(None) => threw
              case Acted(Some(db)) => acted && !threw && Rows() == db
    {
      if IsPromotable(c, hasActiveOffer, heartbeatTimeoutSeconds, now) {
        var d := Decide(OrderStatus.Reserved, NumberStatus.Reserved, false, Command.Activate);
        if !d.Apply? || !d.nextOrder.WaitingSms? || !d.nextNumber.Busy? {
          return false, false;
        }
        var promoted := PromoteReserved(c, now);
        return promoted, !promoted;
      }
      var d := RecoveryRelease(c, heartbeatTimeoutSeconds, now);
      if !d.Apply? {
        return false, false;
      }
      var released := ApplyTerminalTransition(c, d);
      return released, !released;
    }

    /** One transaction over a page of stuck reservations. A throw restores every row. From a sound
        state, read and written under row locks, it never comes to that: the batch resolves every
        reservation on its page and touches no other order. */
    method RecoverBatch(stuck: set<OrderId>, cursor: JobCursor, batchSize: int, offered: set<NumberId>,
                        heartbeatTimeoutSeconds: nat, now: Time) returns (r: BatchResult, threw: bool)
      requires forall o <- stuck :: Joined(Rows(), o) && orders[o].status.Reserved?
      modifies this`orders, this`numbers
      ensures threw ==> Rows() == old(Rows())
      ensures var limit := if batchSize < 1 then 1 else batchSize;
              var ids := Page(stuck, DecodeAfterId(cursor), limit);
              HoldInv(old(Rows())) ==>
                && !threw && HoldInv(Rows()) && RecoveredOnly(old(Rows()), Rows(), ids)
                && r == BatchResult(|ids|, EncodeBatchCursor(|ids| < limit, LastOf(ids)), |ids| < limit)
    {
      var limit := if batchSize < 1 then 1 else batchSize;
      var ids := Page(stuck, DecodeAfterId(cursor), limit);
      var locked := seq(|ids|, k requires 0 <= k < |ids| reads this => LoadContext(Rows(), ids[k]));
      var savedOrders, savedNumbers := orders, numbers;
      ghost var start := Rows();
      var processed, i := 0, 0;
      while i < |ids|
        invariant 0 <= i <= |ids|
        invariant HoldInv(start) ==> processed == i && HalfRecovered(start, Rows(), ids, locked, i)
      {
        var offer := savedOrders[ids[i]].numberId in offered;
        if HoldInv(start) {
          RecoversNext(start, Rows(), ids, locked, i, offer, heartbeatTimeoutSeconds, now);
        }
        var acted, failed := RecoverReservation(locked[i].value, offer, heartbeatTimeoutSeconds, now);
        if failed {
          orders, numbers := savedOrders, savedNumbers;
          return BatchResult(0, cursor, false), true;
        }
        if acted {
          processed := processed + 1;
        }
        i := i + 1;
      }
      assert ids[..|ids|] == ids;
      r, threw := BatchResult(processed, EncodeBatchCursor(|ids| < limit, LastOf(ids)), |ids| < limit), false;
    }
  }
}
