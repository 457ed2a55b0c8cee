/** What the hold invariant means for callers: statements about every run, whatever the interleaving. */
module HoldGuarantees {
  import opened Prelude
  import opened OrderStateMachine
  import opened ListeningWindow
  import opened Marketplace
  import opened HoldInvariant

  function Run(steps: seq<Step>): State { Exec(Init(), steps) }

  lemma {:induction false} ExecConcat(s: State, first: seq<Step>, second: seq<Step>)
    ensures Exec(s, first + second) == Exec(Exec(s, first), second)
    decreases |first|
  {
    if first == [] {
      assert first + second == second;
    } else {
      assert (first + second)[1..] == first[1..] + second;
      ExecConcat(Next(s, first[0]), first[1..], second);
    }
  }

  lemma RunExtends(first: seq<Step>, second: seq<Step>)
    ensures Inv(Run(first)) && Inv(Run(first + second)) && Extends(Run(first).db, Run(first + second).db)
  {
    EveryRunKeepsHolds(first);
    ExecConcat(Init(), first, second);
    RunKeeps(Run(first), second);
  }

  // ---------------------------------------------------------------------------
  // Orders and numbers agree
  // ---------------------------------------------------------------------------

  predicate ReservedBy(db: Db, n: NumberId, o: OrderId) {
    && n in db.numbers && db.numbers[n].currentOrder == Some(o)
    && o in db.orders && db.orders[o].numberId == n && db.orders[o].status.Reserved?
  }

  predicate OccupiedBy(db: Db, n: NumberId, o: OrderId) {
    && n in db.numbers && db.numbers[n].currentOrder == Some(o)
    && o in db.orders && db.orders[o].numberId == n
    && (db.orders[o].status.WaitingSms? || (db.orders[o].status.Success? && db.orders[o].completedAt.None?))
  }

  /** A number is `reserved` or `busy` exactly when its current order is, respectively, `reserved`, or
      `waiting_sms` or a `success` whose hold is still open. */
  lemma NumberHeldExactlyByItsOrder(steps: seq<Step>, n: NumberId)
    requires n in Run(steps).db.numbers
    ensures var db := Run(steps).db;
            && (db.numbers[n].status.Reserved? <==> exists o :: ReservedBy(db, n, o))
            && (db.numbers[n].status.Busy? <==> exists o :: OccupiedBy(db, n, o))
            && (Idle(db.numbers[n].status) <==> db.numbers[n].currentOrder.None?)
  {
    var db := Run(steps).db;
    EveryRunKeepsHolds(steps);
    assert NumberRow(db, n);
    if db.numbers[n].currentOrder.Some? {
      var o := db.numbers[n].currentOrder.value;
      assert ReservedBy(db, n, o) || OccupiedBy(db, n, o);
    }
  }

  /** Every order that holds a number holds its own, and no two orders hold one number. */
  lemma EveryHoldIsExclusive(steps: seq<Step>, o: OrderId, p: OrderId)
    requires var db := Run(steps).db; o in db.orders && Holding(db.orders[o]) && p in db.orders && Holding(db.orders[p])
    ensures var db := Run(steps).db;
            && db.orders[o].numberId in db.numbers
            && db.numbers[db.orders[o].numberId].currentOrder == Some(o)
            && db.numbers[db.orders[o].numberId].status == HeldBy(db.orders[o]).value
            && (db.orders[o].numberId == db.orders[p].numberId ==> o == p)
  {
    EveryRunKeepsHolds(steps);
    CurrentOrderHolds(Run(steps).db, o);
    CurrentOrderHolds(Run(steps).db, p);
  }

  // ---------------------------------------------------------------------------
  // A hold ends once
  // ---------------------------------------------------------------------------

  /** Whatever happens later: a completion instant is never rewritten, a terminal status is never
      left, and an order whose hold is over never holds a number again. */
  lemma HoldEndsOnce(first: seq<Step>, second: seq<Step>, o: OrderId)
    requires o in Run(first).db.orders
    ensures o in Run(first + second).db.orders
    ensures var before := Run(first).db.orders[o]; var after := Run(first + second).db.orders[o];
            && after.numberId == before.numberId
            && (before.completedAt.Some? ==> after.completedAt == before.completedAt)
            && (IsTerminal(before.status) ==> after.status == before.status)
            && (IsTerminal(before.status) && !Holding(before) ==> !Holding(after))
  {
    RunExtends(first, second);
    assert Kept(Run(first).db, Run(first + second).db, o);
    assert OrderRow(Run(first + second).db, o);
  }

  predicate ReportsCompletion(attempt: Attempt, o: OrderId, completedAt: Time) {
    && attempt.Finished? && attempt.op.orderId == o
    && (attempt.outcome.Executed? || attempt.outcome.Replayed?)
    && attempt.outcome.response.CompleteOk?
    && attempt.outcome.response.completedAt == completedAt
  }

  /** Every request that ever reported a completion of an order reported the same instant: the one on its row. */
  lemma CompletionsReportOneInstant(first: seq<Step>, second: seq<Step>, a: AttemptId, b: AttemptId, o: OrderId, t: Time, u: Time)
    requires a in Run(first).attempts && ReportsCompletion(Run(first).attempts[a], o, t)
    requires b in Run(first + second).attempts && ReportsCompletion(Run(first + second).attempts[b], o, u)
    ensures t == u
    ensures o in Run(first + second).db.orders && Run(first + second).db.orders[o].completedAt == Some(t)
  {
    RunExtends(first, second);
    assert AttemptOk(Run(first).db, Run(first).attempts[a]);
    assert AttemptOk(Run(first + second).db, Run(first + second).attempts[b]);
    assert Kept(Run(first).db, Run(first + second).db, o);
  }

  /** A held number stays with its order, in the same status, until that very order moves on. */
  lemma HoldLastsUntilItsOrderMoves(first: seq<Step>, second: seq<Step>, o: OrderId)
    requires o in Run(first).db.orders && Holding(Run(first).db.orders[o])
    ensures o in Run(first + second).db.orders
    ensures var before := Run(first).db; var after := Run(first + second).db; var n := before.orders[o].numberId;
            Rank(after.orders[o]) == Rank(before.orders[o]) ==>
              && n in before.numbers && n in after.numbers
              && after.numbers[n].currentOrder == Some(o)
              && after.numbers[n].status == before.numbers[n].status
  {
    RunExtends(first, second);
    assert Kept(Run(first).db, Run(first + second).db, o);
    CurrentOrderHolds(Run(first).db, o);
    CurrentOrderHolds(Run(first + second).db, o);
  }

  predicate OthersUntouched(db: Db, after: Db, own: OrderId) {
    && after.devices == db.devices
    && after.orders.Keys == db.orders.Keys && after.numbers.Keys == db.numbers.Keys
    && (forall o <- db.orders | o != own :: after.orders[o] == db.orders[o])
    && (forall n <- db.numbers | db.numbers[n].currentOrder != Some(own) :: after.numbers[n] == db.numbers[n])
  }

  lemma EffectTouchesOnlyItsOwnHold(db: Db, op: Operation, ctx: Option<Context>, config: Config, now: Time)
    requires ctx.Some? ==> ctx.value.orderId == op.orderId
    ensures var effect := RunEffect(db, op, ctx, config, now);
            effect.Settled? ==> OthersUntouched(db, effect.db, op.orderId)
  {
    if ctx.Some? && !op.CompleteOrder? {
      var d := Decide(ctx.value.orderStatus, ctx.value.numberStatus, ctx.value.otpReceived, CommandOf(op, ctx.value, config, now));
      assert d.Apply? && ApplyTerminal(db, ctx.value, d).Some? ==> OthersUntouched(db, ApplyTerminal(db, ctx.value, d).value, op.orderId);
    }
  }

  /** A command never disturbs another order, nor a number that is not currently bound to its own
      order: completing an order late cannot free a number since taken by somebody else. */
  lemma CommandTouchesOnlyItsOwnHold(s: State, a: AttemptId, config: Option<Config>, now: Time)
    requires Inv(s) && a in s.attempts && s.attempts[a].Prepared?
    ensures OthersUntouched(s.db, Next(s, Commit(a, config, now)).db, s.attempts[a].op.orderId)
  {
    assert AttemptOk(s.db, s.attempts[a]);
    if config.Some? {
      EffectTouchesOnlyItsOwnHold(s.db, s.attempts[a].op, s.attempts[a].ctx, config.value, now);
    }
  }

  // ---------------------------------------------------------------------------
  // The jobs' constant keys never strand a hold
  // ---------------------------------------------------------------------------

  /** A record under the completion sweep's key is never a rejection, and a record under the timeout
      job's key is one only if the order already is in another terminal state. */
  lemma JobRecordsNeverBlockARelease(steps: seq<Step>, o: OrderId)
    ensures var s := Run(steps);
            SweepJobKey(o) in s.records ==>
              && s.records[SweepJobKey(o)].response.CompleteOk?
              && o in s.db.orders
              && s.db.orders[o].completedAt == Some(s.records[SweepJobKey(o)].response.completedAt)
    ensures var s := Run(steps);
            TimeoutJobKey(o) in s.records ==>
              && o in s.db.orders
              && (match s.records[TimeoutJobKey(o)].response
                  case TerminalOk(_, status, _, _) => status.Timeout? && s.db.orders[o].status.Timeout?
                  case Refused(_) => s.db.orders[o].status in {Success, Cancelled, OrderStatus.Failed}
                  case CompleteOk(_, _, _) => false)
  {
    EveryRunKeepsHolds(steps);
    var s := Run(steps);
    RecordTells(s, SweepJobKey(o));
    RecordTells(s, TimeoutJobKey(o));
  }

  function OneRun(select: Step, a: AttemptId, config: Config, now: Time): seq<Step> {
    [select, Lookup(a), Load(a), Commit(a, Some(config), now)]
  }

  lemma ExecFour(s: State, w: Step, x: Step, y: Step, z: Step)
    ensures Exec(s, [w, x, y, z]) == Next(Next(Next(Next(s, w), x), y), z)
  {
    assert [w, x, y, z][1..] == [x, y, z];
    assert [x, y, z][1..] == [y, z];
    assert [y, z][1..] == [z];
    assert [z][1..] == [];
    var t := Next(s, w);
    assert Exec(t, [x, y, z]) == Exec(Next(t, x), [y, z]);
    assert Exec(Next(t, x), [y, z]) == Exec(Next(Next(t, x), y), [z]);
  }

  lemma LookupMisses(s: State, a: AttemptId, key: RecordKey, op: Operation)
    requires a in s.attempts && s.attempts[a] == Selected(key, op) && key !in s.records
    ensures Next(s, Lookup(a)) == Advance(s, a, Executing(key, op))
  {
  }

  lemma LoadReads(s: State, a: AttemptId, key: RecordKey, op: Operation)
    requires a in s.attempts && s.attempts[a] == Executing(key, op)
    ensures Next(s, Load(a)) == Advance(s, a, Prepared(key, op, LoadContext(s.db, op.orderId)))
  {
  }

  lemma CommitInserts(s: State, a: AttemptId, config: Config, now: Time)
    requires a in s.attempts && s.attempts[a].Prepared? && s.attempts[a].key !in s.records
    requires RunEffect(s.db, s.attempts[a].op, s.attempts[a].ctx, config, now).Settled?
    ensures Next(s, Commit(a, Some(config), now)).db == RunEffect(s.db, s.attempts[a].op, s.attempts[a].ctx, config, now).db
  {
  }

  /** An attempt whose key is free and whose reads are fresh has its effect. */
  lemma FreshAttempt(s: State, select: Step, a: AttemptId, key: RecordKey, op: Operation, config: Config, now: Time)
    requires key !in s.records && Next(s, select) == Advance(s, a, Selected(key, op))
    requires RunEffect(s.db, op, LoadContext(s.db, op.orderId), config, now).Settled?
    ensures Exec(s, OneRun(select, a, config, now)).db == RunEffect(s.db, op, LoadContext(s.db, op.orderId), config, now).db
  {
    ExecFour(s, select, Lookup(a), Load(a), Commit(a, Some(config), now));
    LookupMisses(Next(s, select), a, key, op);
    LoadReads(Next(Next(s, select), Lookup(a)), a, key, op);
    CommitInserts(Next(Next(Next(s, select), Lookup(a)), Load(a)), a, config, now);
  }

  // The two jobs: what they select, the key they mint and the command they issue.

  datatype Job = TimeoutJob | CompletionSweep

  predicate Due(job: Job, order: Order, now: Time) {
    match job
    case TimeoutJob => (order.status.Reserved? || order.status.WaitingSms?) && order.expiresAt <= now && !order.otpReceived
    case CompletionSweep => order.status.Success? && order.completedAt.None? && order.expiresAt < now
  }

  function JobKey(job: Job, o: OrderId): RecordKey {
    match job
    case TimeoutJob => TimeoutJobKey(o)
    case CompletionSweep => SweepJobKey(o)
  }

  function JobOperation(job: Job, o: OrderId, now: Time): Operation {
    match job
    case TimeoutJob => TimeoutOrder(o, JOB_TIMEOUT_REASON, now)
    case CompletionSweep => CompleteOrder(o, ExpirySweep, Some(now))
  }

  function JobSelect(job: Job, a: AttemptId, o: OrderId, now: Time): Step {
    match job
    case TimeoutJob => SelectExpired(a, o, now)
    case CompletionSweep => SelectExpiredListening(a, o, now)
  }

  /** The order is settled the way the job settles it, and its number is unbound and idle. */
  predicate Freed(db: Db, job: Job, o: OrderId, now: Time) {
    && o in db.orders
    && (match job
        case TimeoutJob => db.orders[o].status.Timeout?
        case CompletionSweep => db.orders[o].status.Success? && db.orders[o].completedAt == Some(now))
    && var n := db.orders[o].numberId;
    && n in db.numbers && Idle(db.numbers[n].status) && db.numbers[n].currentOrder == None
  }

  lemma TimeoutEffectFrees(db: Db, o: OrderId, config: Config, now: Time)
    requires HoldInv(db) && o in db.orders && Due(TimeoutJob, db.orders[o], now)
    ensures var effect := RunEffect(db, JobOperation(TimeoutJob, o, now), LoadContext(db, o), config, now);
            effect.Settled? && Freed(effect.db, TimeoutJob, o, now)
  {
    CurrentOrderHolds(db, o);
    var c := LoadContext(db, o).value;
    var command := CommandOf(JobOperation(TimeoutJob, o, now), c, config, now);
    AppliedExactlyWhenLegal(c.orderStatus, c.numberStatus, c.otpReceived, command);
    AppliedEndsOrder(c, command);
    var d := Decide(c.orderStatus, c.numberStatus, c.otpReceived, command);
    EndOfHold(db, o, db.orders[o].(status := OrderStatus.Timeout, version := c.version + 1), c.numberStatus, d.nextNumber);
  }

  lemma SweepEffectFrees(db: Db, o: OrderId, config: Config, now: Time)
    requires HoldInv(db) && o in db.orders && Due(CompletionSweep, db.orders[o], now)
    ensures var effect := RunEffect(db, JobOperation(CompletionSweep, o, now), LoadContext(db, o), config, now);
            effect.Settled? && Freed(effect.db, CompletionSweep, o, now)
  {
    CurrentOrderHolds(db, o);
    var c := LoadContext(db, o).value;
    var d := DecideHoldRelease(ListeningOrderOf(c), c.numberStatus, c.numberCurrentOrder, ExpirySweep,
                               Finite(now), ReleaseContextOf(c, config, now));
    ReleasedEndsHold(c, ExpirySweep, now, ReleaseContextOf(c, config, now));
    EndOfHold(db, o, db.orders[o].(completedAt := Some(now), version := c.version + 1), c.numberStatus, d.nextNumber);
  }

  lemma RecordTells(s: State, key: RecordKey)
    requires Inv(s)
    ensures key in s.records ==> RecordOk(s.db, key, s.records[key])
  {
  }

  /** No record can stand in the way of an item that is due, and its effect frees the number. */
  lemma DueItemIsFreed(s: State, job: Job, o: OrderId, config: Config, now: Time)
    requires Inv(s) && o in s.db.orders && Due(job, s.db.orders[o], now)
    ensures Joined(s.db, o) && JobKey(job, o) !in s.records
    ensures var effect := RunEffect(s.db, JobOperation(job, o, now), LoadContext(s.db, o), config, now);
            effect.Settled? && Freed(effect.db, job, o, now)
  {
    ReadContextOk(s.db, o);
    RecordTells(s, JobKey(job, o));
    match job
    case TimeoutJob => TimeoutEffectFrees(s.db, o, config, now);
    case CompletionSweep => SweepEffectFrees(s.db, o, config, now);
  }

  /** From every reachable state one undisturbed attempt of the timeout job times out an expired order,
      and one of the completion sweep closes an expired listening window; either way the number is
      freed, whatever earlier attempts left behind. */
  lemma JobAttemptFrees(steps: seq<Step>, job: Job, a: AttemptId, o: OrderId, config: Config, now: Time)
    requires var s := Run(steps); a !in s.attempts && o in s.db.orders && Due(job, s.db.orders[o], now)
    ensures Freed(Run(steps + OneRun(JobSelect(job, a, o, now), a, config, now)).db, job, o, now)
  {
    var s := Run(steps);
    EveryRunKeepsHolds(steps);
    DueItemIsFreed(s, job, o, config, now);
    assert Next(s, JobSelect(job, a, o, now)) == Advance(s, a, Selected(JobKey(job, o), JobOperation(job, o, now)));
    FreshAttempt(s, JobSelect(job, a, o, now), a, JobKey(job, o), JobOperation(job, o, now), config, now);
    ExecConcat(Init(), steps, OneRun(JobSelect(job, a, o, now), a, config, now));
  }

  /** An order that still holds its number is due as soon as its time is up: nothing that happened to
      it before, not even a redacted or repeated OTP, takes it out of both jobs' sight. */
  lemma ExpiredHoldIsDue(steps: seq<Step>, o: OrderId, now: Time)
    requires o in Run(steps).db.orders
    ensures var order := Run(steps).db.orders[o];
            order.expiresAt < now ==> (Holding(order) <==> Due(TimeoutJob, order, now) || Due(CompletionSweep, order, now))
  {
    EveryRunKeepsHolds(steps);
    assert OrderRow(Run(steps).db, o);
  }

  // ---------------------------------------------------------------------------
  // What an undisturbed command does
  // ---------------------------------------------------------------------------

  /** The number is unbound, and offered again exactly when it is enabled and its device is online and
      was last seen at most the heartbeat timeout ago. */
  predicate FreedAt(before: Db, after: Db, n: NumberId, at: Time, timeoutSeconds: nat) {
    && n in before.numbers && before.numbers[n].deviceId in before.devices && n in after.numbers
    && var number, device := before.numbers[n], before.devices[before.numbers[n].deviceId];
    && var live := number.enabled && device.status.Online? && device.lastSeenAt.Some?
                   && device.lastSeenAt.value <= at <= device.lastSeenAt.value + 1000 * timeoutSeconds;
    && after.numbers == before.numbers[n := number.(status := if live then Available else NumberStatus.Offline, currentOrder := None)]
  }

  lemma ReleaseIsFreedAt(db: Db, o: OrderId, config: Config, at: Time)
    requires Joined(db, o)
    ensures var number := db.numbers[db.orders[o].numberId]; var device := db.devices[number.deviceId];
            DecideNumberRelease(ReleaseContextOf(LoadContext(db, o).value, config, at)) ==
              if number.enabled && device.status.Online? && device.lastSeenAt.Some?
                 && device.lastSeenAt.value <= at <= device.lastSeenAt.value + 1000 * config.heartbeatTimeoutSeconds
              then Available else NumberStatus.Offline
  {
    ReleasedAsAvailableExactlyWhen(ReleaseContextOf(LoadContext(db, o).value, config, at));
  }

  /** A completion answered at once: an ended hold reports its own instant and an unsuccessful order is
      refused, both changing nothing; a buyer ends an open hold at any time, and the sweep after the
      expiry; what ends is stamped and its number freed, and nothing else changes. */
  lemma CompletionDoesExactly(db: Db, o: OrderId, trigger: Trigger, instant: Option<Time>, config: Config, now: Time)
    requires HoldInv(db) && o in db.orders
    ensures var effect := RunEffect(db, CompleteOrder(o, trigger, instant), LoadContext(db, o), config, now);
            var order := db.orders[o];
            var at: Time := instant.GetOr(now);
            && effect.Settled?
            && if order.completedAt.Some? then effect == Settled(db, CompleteOk(o, order.completedAt.value, None))
               else if !order.status.Success? || (trigger == ExpirySweep && at <= order.expiresAt)
               then effect == Settled(db, Refused(StateConflictError))
               else
                 && effect.response.CompleteOk? && effect.response.orderId == o && effect.response.completedAt == at
                 && effect.db.orders == db.orders[o := order.(completedAt := Some(at), version := order.version + 1)]
                 && effect.db.devices == db.devices
                 && FreedAt(db, effect.db, order.numberId, at, config.heartbeatTimeoutSeconds)
                 && effect.response.disposition == Some(effect.db.numbers[order.numberId].status)
  {
    CurrentOrderHolds(db, o);
    ReadContextOk(db, o);
    var c, order := LoadContext(db, o).value, db.orders[o];
    var at: Time := instant.GetOr(now);
    ReleasedExactlyWhen(ListeningOrderOf(c), c.numberStatus, c.numberCurrentOrder, trigger, Finite(at), ReleaseContextOf(c, config, at));
    var d := DecideHoldRelease(ListeningOrderOf(c), c.numberStatus, c.numberCurrentOrder, trigger, Finite(at), ReleaseContextOf(c, config, at));
    if d.Release? {
      ReleasedEndsHold(c, trigger, at, ReleaseContextOf(c, config, at));
      ReleaseIsFreedAt(db, o, config, at);
      EndOfHold(db, o, order.(completedAt := Some(at), version := c.version + 1), c.numberStatus, d.nextNumber);
    }
  }

  /** What a cancel, timeout or failure is for. */
  function StatusFor(op: Operation): OrderStatus
    requires !op.CompleteOrder?
  {
    match op
    case CancelOrder(_, _, _) => Cancelled
    case TimeoutOrder(_, _, _) => OrderStatus.Timeout
    case FailOrder(_, _, _) => OrderStatus.Failed
  }

  /** The instant it is judged at. */
  function JudgedAt(op: Operation, now: Time): Time { if op.TimeoutOrder? then op.observedAt else now }

  /** When an order may be ended that way. A cancel waits until the order has the minimum age, unless the
      buyer's side compensates for a reservation of its own; a timeout waits for the expiry. */
  predicate MayEnd(order: Order, op: Operation, config: Config, now: Time)
    requires !op.CompleteOrder?
  {
    match op
    case CancelOrder(_, reason, _) =>
      || (order.status.Reserved? && (reason == "MAIN_COMPENSATION" || now - order.createdAt >= 1000 * config.cancelMinimumSeconds))
      || (order.status.WaitingSms? && now - order.createdAt >= if reason == "MAIN_COMPENSATION" then 0 else 1000 * config.cancelMinimumSeconds)
    case TimeoutOrder(_, _, observedAt) => (order.status.Reserved? || order.status.WaitingSms?) && order.expiresAt <= observedAt
    case FailOrder(_, _, _) => order.status.Created? || order.status.WaitingSms?
  }

  /** The reason a command is refused for: another terminal status, a cancel that comes too early, or a
      state that does not allow it. */
  function RefusalOf(order: Order, op: Operation): ErrorCode {
    if IsTerminal(order.status) then TerminalStateConflictError
    else if op.CancelOrder? && !order.status.Created? then CancelNotAllowedError
    else StateConflictError
  }

  /** What a repeated command says of the number: whether it is offered now, if it is free to be. */
  function OfferedAs(status: NumberStatus): Option<NumberStatus> {
    match status
    case Available => Some(NumberStatus.Available)
    case Offline => Some(NumberStatus.Offline)
    case _ => None
  }

  /** The order's row is the one that was read, but for an OTP redacted since. */
  predicate Unmoved(before: Db, after: Db, o: OrderId) {
    && o in before.orders && o in after.orders
    && (after.orders[o] == before.orders[o] || after.orders[o] == before.orders[o].(otpReceived := false))
  }

  /** The number is still bound to the order, in the status that was read. */
  predicate StillBound(db: Db, c: Context) {
    && c.numberId in db.numbers
    && db.numbers[c.numberId].status == c.numberStatus && db.numbers[c.numberId].currentOrder == Some(c.orderId)
  }

  /** Every write guarded by a context read `before` lands `after` exactly on the very row that was read,
      with the number, if it is to change, still bound as it was. */
  predicate LandOnTheRowRead(before: Db, after: Db, c: Context, d: Decision, at: Time, next: NumberStatus)
    requires d.Apply?
  {
    var unmoved, bound := Unmoved(before, after, c.orderId), StillBound(after, c);
    && (ApplyTerminal(after, c, d).Some? <==> unmoved && c.orderStatus == d.expectedOrder && (d.nextNumber == c.numberStatus || bound))
    && (ApplyHoldRelease(after, c, at, next, true).Some? <==> unmoved && c.orderStatus.Success? && c.completedAt.None? && bound)
    && (ApplyHoldRelease(after, c, at, next, false).Some? <==> unmoved && c.orderStatus.Success? && c.completedAt.None?)
    && (ApplySuccess(after, c, d).Some? <==> unmoved && c.orderStatus.WaitingSms? && (d.nextNumber == c.numberStatus || bound))
    && (ApplyRepeatOtp(after, c).Some? <==> unmoved && c.orderStatus.Success? && c.completedAt.None?)
    && (Promote(after, c.orderId, c.version, c.numberId, at).Some? <==> unmoved && c.orderStatus.Reserved? && bound)
  }

  lemma SameVersionSameRow(before: Db, after: Db, c: Context, d: Decision, at: Time, next: NumberStatus)
    requires HoldInv(before) && HoldInv(after) && Extends(before, after)
    requires LoadContext(before, c.orderId) == Some(c) && d.Apply?
    ensures LandOnTheRowRead(before, after, c, d, at, next)
  {
    assert Kept(before, after, c.orderId);
    assert OrderRow(before, c.orderId) && OrderRow(after, c.orderId);
    ReadContextOk(before, c.orderId);
  }

  /** No update is ever lost: a context read at any point of any run lets a write through at any later
      point only if its order has not moved in between, and then always. */
  lemma GuardedWritesLandOnTheRowRead(first: seq<Step>, second: seq<Step>, c: Context, d: Decision, at: Time, next: NumberStatus)
    requires LoadContext(Run(first).db, c.orderId) == Some(c) && d.Apply?
    ensures LandOnTheRowRead(Run(first).db, Run(first + second).db, c, d, at, next)
  {
    RunExtends(first, second);
    SameVersionSameRow(Run(first).db, Run(first + second).db, c, d, at, next);
  }

  /** A terminal command answered at once: repeated, it answers as before and changes nothing; refused, it
      changes nothing; otherwise the order ends that way, its number, if it held one, is freed, and
      nothing else changes. */
  lemma TerminalCommandDoesExactly(db: Db, o: OrderId, op: Operation, config: Config, now: Time)
    requires HoldInv(db) && o in db.orders && op.orderId == o && !op.CompleteOrder?
    ensures var effect := RunEffect(db, op, LoadContext(db, o), config, now);
            var order, status := db.orders[o], StatusFor(op);
            && effect.Settled? && order.numberId in db.numbers
            && if order.status == status then
                 effect.db == db && effect.response.TerminalOk? && effect.response.orderId == o
                 && effect.response.status == status && effect.response.reason == op.reason
                 && effect.response.disposition == OfferedAs(db.numbers[order.numberId].status)
               else if !MayEnd(order, op, config, now) then effect == Settled(db, Refused(RefusalOf(order, op)))
               else
                 && effect.response.TerminalOk? && effect.response.orderId == o
                 && effect.response.status == status && effect.response.reason == op.reason
                 && effect.db.orders == db.orders[o := order.(status := status, version := order.version + 1)]
                 && effect.db.devices == db.devices
                 && (order.status.Created? ==> effect.db.numbers == db.numbers && effect.response.disposition == None)
                 && (!order.status.Created? ==>
                       && FreedAt(db, effect.db, order.numberId, JudgedAt(op, now), config.heartbeatTimeoutSeconds)
                       && effect.response.disposition == Some(effect.db.numbers[order.numberId].status))
  {
    CurrentOrderHolds(db, o);
    ReadContextOk(db, o);
    var c, order := LoadContext(db, o).value, db.orders[o];
    var command := CommandOf(op, c, config, now);
    AppliedExactlyWhenLegal(c.orderStatus, c.numberStatus, c.otpReceived, command);
    assert TargetStatus(command) == StatusFor(op);
    if MayEnd(order, op, config, now) {
      AppliedEndsOrder(c, command);
      AppliedPairsTheNumber(c.orderStatus, c.numberStatus, c.otpReceived, command);
      var d := Decide(c.orderStatus, c.numberStatus, c.otpReceived, command);
      if !order.status.Created? {
        ReleaseIsFreedAt(db, o, config, JudgedAt(op, now));
        EndOfHold(db, o, order.(status := d.nextOrder, version := c.version + 1), c.numberStatus, d.nextNumber);
      }
    }
  }

  function OneCall(a: AttemptId, principal: string, key: string, op: Operation, config: Config, now: Time): seq<Step> {
    OneRun(Call(a, principal, key, op), a, config, now)
  }

  /** From every reachable state one undisturbed call under an unused key has exactly the effect of its
      command on the rows as they are; with the two lemmas above, what that is. */
  lemma CallHasItsEffect(steps: seq<Step>, a: AttemptId, principal: string, key: string, op: Operation, config: Config, now: Time)
    requires var s := Run(steps); a !in s.attempts && op.orderId in s.db.orders && CallerKey(ScopeOf(op), principal, key) !in s.records
    ensures var s := Run(steps);
            var effect := RunEffect(s.db, op, LoadContext(s.db, op.orderId), config, now);
            effect.Settled? && Run(steps + OneCall(a, principal, key, op, config, now)).db == effect.db
  {
    var s := Run(steps);
    EveryRunKeepsHolds(steps);
    if op.CompleteOrder? {
      CompletionDoesExactly(s.db, op.orderId, op.trigger, op.instant, config, now);
    } else {
      TerminalCommandDoesExactly(s.db, op.orderId, op, config, now);
    }
    var recordKey := CallerKey(ScopeOf(op), principal, key);
    assert Next(s, Call(a, principal, key, op)) == Advance(s, a, Selected(recordKey, op));
    FreshAttempt(s, Call(a, principal, key, op), a, recordKey, op, config, now);
    ExecConcat(Init(), steps, OneCall(a, principal, key, op, config, now));
  }

  /** The request hash binds everything about an operation but the instant it is observed at. */
  lemma HashIgnoresOnlyTheInstant(x: Operation, y: Operation)
    ensures Identity(x) == Identity(y) <==>
              || x == y
              || (x.TimeoutOrder? && y.TimeoutOrder? && x.orderId == y.orderId && x.reason == y.reason)
              || (x.CompleteOrder? && y.CompleteOrder? && x.orderId == y.orderId && x.trigger == y.trigger)
  {
  }

  /** A call under a used key changes nothing: the same operation gets the stored response, and any other
      a conflict. */
  lemma CallUnderAUsedKey(s: State, a: AttemptId, principal: string, key: string, op: Operation)
    requires Inv(s) && a !in s.attempts && CallerKey(ScopeOf(op), principal, key) in s.records
    ensures var record := s.records[CallerKey(ScopeOf(op), principal, key)];
            var after := Next(Next(s, Call(a, principal, key, op)), Lookup(a));
            && after.db == s.db && after.records == s.records
            && a in after.attempts && after.attempts[a].Finished?
            && after.attempts[a].outcome == if record.identity == Identity(op) then Replayed(record.response) else Outcome.Conflict
  {
  }

  /** From every reachable state a buyer's call ends an open hold at once: even while the window is open. */
  lemma BuyerCallFrees(steps: seq<Step>, a: AttemptId, principal: string, key: string, o: OrderId, instant: Option<Time>, config: Config, now: Time)
    requires var s := Run(steps); a !in s.attempts && o in s.db.orders && CallerKey(CompleteScope, principal, key) !in s.records
    requires var order := Run(steps).db.orders[o]; order.status.Success? && order.completedAt.None?
    ensures Freed(Run(steps + OneCall(a, principal, key, CompleteOrder(o, BuyerComplete, instant), config, now)).db,
                  CompletionSweep, o, instant.GetOr(now))
  {
    var op := CompleteOrder(o, BuyerComplete, instant);
    EveryRunKeepsHolds(steps);
    CompletionDoesExactly(Run(steps).db, o, BuyerComplete, instant, config, now);
    CallHasItsEffect(steps, a, principal, key, op, config, now);
  }

  predicate Resolved(db: Db, o: OrderId, n: NumberId) {
    && o in db.orders && n in db.numbers
    && ( (db.orders[o].status.WaitingSms? && db.numbers[n].status.Busy? && db.numbers[n].currentOrder == Some(o))
      || (db.orders[o].status.Cancelled? && Idle(db.numbers[n].status) && db.numbers[n].currentOrder == None))
  }

  lemma RecoverOneResolves(db: Db, o: OrderId, hasActiveOffer: bool, heartbeatTimeoutSeconds: nat, now: Time)
    requires HoldInv(db) && o in db.orders && db.orders[o].status.Reserved? && Joined(db, o)
    ensures var r := RecoverOne(db, LoadContext(db, o).value, hasActiveOffer, heartbeatTimeoutSeconds, now);
            r.Acted? && r.db.Some? && Resolved(r.db.value, o, db.orders[o].numberId)
  {
    CurrentOrderHolds(db, o);
    ReadContextOk(db, o);
    var c := LoadContext(db, o).value;
    RecoveryNeverLeavesIt(db, c, hasActiveOffer, heartbeatTimeoutSeconds, now);
    if !IsPromotable(c, hasActiveOffer, heartbeatTimeoutSeconds, now) {
      var command := Command.Cancel(RELEASE_REASON, Finite(now), Finite(now), Finite(0),
                                    ReleaseContextOf(c, Config(heartbeatTimeoutSeconds, 0), now));
      AppliedEndsOrder(c, command);
      var d := RecoveryRelease(c, heartbeatTimeoutSeconds, now);
      EndOfHold(db, o, db.orders[o].(status := Cancelled, version := c.version + 1), c.numberStatus, d.nextNumber);
    }
  }

  /** Recovery answered at once: the order is activated exactly when its number is enabled and still
      offered and its device alive, and cancelled otherwise, its number then freed. */
  lemma RecoveryDoesExactly(db: Db, o: OrderId, hasActiveOffer: bool, heartbeatTimeoutSeconds: nat, now: Time)
    requires HoldInv(db) && o in db.orders && db.orders[o].status.Reserved?
    ensures var order := db.orders[o];
            && Joined(db, o)
            && var r := RecoverOne(db, LoadContext(db, o).value, hasActiveOffer, heartbeatTimeoutSeconds, now);
            && var number, device := db.numbers[order.numberId], db.devices[db.numbers[order.numberId].deviceId];
            && r.Acted? && r.db.Some? && r.db.value.devices == db.devices
            && if number.enabled && hasActiveOffer && device.status.Online? && device.lastSeenAt.Some?
                  && device.lastSeenAt.value <= now <= device.lastSeenAt.value + 1000 * heartbeatTimeoutSeconds
               then
                 && r.db.value.orders == db.orders[o := order.(status := WaitingSms, version := order.version + 1, windowStartsAt := now)]
                 && r.db.value.numbers == db.numbers[order.numberId := number.(status := Busy)]
               else
                 && r.db.value.orders == db.orders[o := order.(status := Cancelled, version := order.version + 1)]
                 && FreedAt(db, r.db.value, order.numberId, now, heartbeatTimeoutSeconds)
  {
    CurrentOrderHolds(db, o);
    ReadContextOk(db, o);
    var c, order := LoadContext(db, o).value, db.orders[o];
    var config := Config(heartbeatTimeoutSeconds, 0);
    ReleaseIsFreedAt(db, o, config, now);
    if !IsPromotable(c, hasActiveOffer, heartbeatTimeoutSeconds, now) {
      var command := Command.Cancel(RELEASE_REASON, Finite(now), Finite(now), Finite(0), ReleaseContextOf(c, config, now));
      AppliedExactlyWhenLegal(OrderStatus.Reserved, c.numberStatus, false, command);
      AppliedEndsOrder(c, command);
      AppliedPairsTheNumber(OrderStatus.Reserved, c.numberStatus, false, command);
      var d := RecoveryRelease(c, heartbeatTimeoutSeconds, now);
      EndOfHold(db, o, order.(status := Cancelled, version := c.version + 1), c.numberStatus, d.nextNumber);
    }
  }

  /** An available number is reserved for a created order of its own, and nothing else is. */
  lemma ReservedExactlyWhen(db: Db, o: OrderId)
    requires HoldInv(db) && o in db.orders
    ensures var order := db.orders[o]; var reserved := ReserveNumber(db, o, order.numberId);
            && order.numberId in db.numbers
            && (reserved.Some? <==> order.status.Created? && db.numbers[order.numberId].status.Available?)
            && (reserved.Some? ==>
                  && reserved.value.orders == db.orders[o := order.(status := OrderStatus.Reserved, version := order.version + 1)]
                  && reserved.value.numbers == db.numbers[order.numberId :=
                       db.numbers[order.numberId].(status := NumberStatus.Reserved, currentOrder := Some(o))]
                  && reserved.value.devices == db.devices)
  {
    CurrentOrderHolds(db, o);
    AppliedExactlyWhenLegal(db.orders[o].status, db.numbers[db.orders[o].numberId].status, false, Command.Reserve);
    if db.orders[o].status.Created? && db.numbers[db.orders[o].numberId].status.Available? {
      AppliedPairsTheNumber(Created, Available, false, Command.Reserve);
    }
  }

  lemma LockReads(s: State, a: AttemptId, o: OrderId, hasActiveOffer: bool)
    requires a !in s.attempts && Joined(s.db, o) && s.db.orders[o].status.Reserved?
    ensures Next(s, LockStuck(a, o, hasActiveOffer)) == Advance(s, a, Recovering(LoadContext(s.db, o).value, hasActiveOffer))
  {
  }

  lemma RecoverWrites(s: State, a: AttemptId, heartbeatTimeoutSeconds: nat, now: Time)
    requires a in s.attempts && s.attempts[a].Recovering?
    ensures match RecoverOne(s.db, s.attempts[a].stuck, s.attempts[a].hasActiveOffer, heartbeatTimeoutSeconds, now)
            case LeaveIt => true
            case Acted(db) => Next(s, Recover(a, heartbeatTimeoutSeconds, now)) == Written(s, a, db)
  {
  }

  /** From every reachable state recovery resolves a stuck reservation: it activates the order, or
      cancels it and frees the number. It never leaves one as it is. */
  lemma RecoveryResolves(steps: seq<Step>, a: AttemptId, o: OrderId, hasActiveOffer: bool, heartbeatTimeoutSeconds: nat, now: Time)
    requires var s := Run(steps); a !in s.attempts && o in s.db.orders && s.db.orders[o].status.Reserved?
    ensures var after := Next(Next(Run(steps), LockStuck(a, o, hasActiveOffer)), Recover(a, heartbeatTimeoutSeconds, now)).db;
            Resolved(after, o, Run(steps).db.orders[o].numberId)
  {
    var s := Run(steps);
    EveryRunKeepsHolds(steps);
    ReadContextOk(s.db, o);
    RecoverOneResolves(s.db, o, hasActiveOffer, heartbeatTimeoutSeconds, now);
    LockReads(s, a, o, hasActiveOffer);
    RecoverWrites(Next(s, LockStuck(a, o, hasActiveOffer)), a, heartbeatTimeoutSeconds, now);
  }

  // ---------------------------------------------------------------------------
  // SMS reach only the order that holds the number
  // ---------------------------------------------------------------------------

  lemma EligibleHoldsTheNumber(db: Db, n: NumberId, o: OrderId, receivedAt: Time)
    requires HoldInv(db) && o in db.orders && Eligible(db.orders[o], n, receivedAt)
    ensures n in db.numbers && db.numbers[n].currentOrder == Some(o) && db.numbers[n].status.Busy?
  {
    CurrentOrderHolds(db, o);
  }

  predicate Distinct(ids: seq<OrderId>) { forall i, j :: 0 <= i < j < |ids| ==> ids[i] != ids[j] }

  lemma {:induction false} EligibleIdsDistinct(db: Db, n: NumberId, receivedAt: Time, ids: seq<OrderId>)
    requires (forall o <- ids :: o in db.orders) && Distinct(ids)
    ensures Distinct(EligibleIds(db, n, receivedAt, ids))
  {
    if ids == [] {
    } else {
      EligibleIdsDistinct(db, n, receivedAt, ids[1..]);
      assert ids[0] !in EligibleIds(db, n, receivedAt, ids[1..]);
    }
  }

  lemma SeveralExactlyWhenDifferent(ids: seq<OrderId>)
    requires Distinct(ids)
    ensures |ids| > 1 <==> exists o, p :: o in ids && p in ids && o != p
  {
    if |ids| > 1 { assert ids[0] in ids && ids[1] in ids && ids[0] != ids[1]; }
  }

  predicate MayTake(db: Db, n: NumberId, receivedAt: Time, o: OrderId) {
    && o in db.orders && db.orders[o].numberId == n
    && (db.orders[o].status.WaitingSms? || (db.orders[o].status.Success? && db.orders[o].completedAt.None?))
    && db.orders[o].windowStartsAt <= receivedAt <= db.orders[o].expiresAt
  }

  /** Over any rows at all: an SMS is matched exactly when one of them may take it, ambiguous exactly when
      several may, and unmatched exactly when none may. */
  lemma MatchedExactlyWhenAlone(db: Db, n: NumberId, receivedAt: Time, ids: seq<OrderId>)
    requires Distinct(ids) && forall o <- ids :: o in db.orders
    ensures var found := MatchSms(db, n, receivedAt, ids);
            && (found.Unmatched? <==> forall o <- ids :: !MayTake(db, n, receivedAt, o))
            && (found.Ambiguous? <==> exists o, p :: o in ids && p in ids && o != p && MayTake(db, n, receivedAt, o) && MayTake(db, n, receivedAt, p))
            && (found.Matched? ==> found.orderId in ids && MayTake(db, n, receivedAt, found.orderId)
                                    && (found.mode.First? <==> db.orders[found.orderId].status.WaitingSms?))
  {
    var matches := EligibleIds(db, n, receivedAt, ids);
    EligibleIdsDistinct(db, n, receivedAt, ids);
    SeveralExactlyWhenDifferent(matches);
    assert forall o :: o in ids && MayTake(db, n, receivedAt, o) <==> o in matches;
    if matches != [] { assert matches[0] in matches; }
  }

  /** Over a number's rows the match is never ambiguous; it is always the order the number points at,
      and a repeat is matched only while that order is still listening. */
  lemma MatchIsTheHolder(steps: seq<Step>, n: NumberId, receivedAt: Time, candidates: seq<OrderId>)
    requires Enumerates(Run(steps).db, n, candidates)
    ensures var db := Run(steps).db;
            match MatchSms(db, n, receivedAt, candidates)
            case Ambiguous(_) => false
            case Unmatched => forall o <- db.orders :: !Eligible(db.orders[o], n, receivedAt)
            case Matched(o, mode) =>
              && n in db.numbers && db.numbers[n].currentOrder == Some(o) && o in db.orders
              && (mode.First? ==> db.orders[o].status.WaitingSms?)
              && (mode.Repeat? ==> IsListeningOrder(ListeningOrder(o, db.orders[o].status, MsOf(db.orders[o].completedAt),
                                                                   Finite(db.orders[o].expiresAt)), Finite(receivedAt)))
  {
    var db := Run(steps).db;
    EveryRunKeepsHolds(steps);
    var matches := EligibleIds(db, n, receivedAt, candidates);
    EligibleIdsDistinct(db, n, receivedAt, candidates);
    if |matches| > 0 {
      EligibleHoldsTheNumber(db, n, matches[0], receivedAt);
      if |matches| > 1 {
        EligibleHoldsTheNumber(db, n, matches[1], receivedAt);
      }
    } else {
      forall o <- db.orders ensures !Eligible(db.orders[o], n, receivedAt) {
        assert Eligible(db.orders[o], n, receivedAt) ==> CandidateRow(db, n, o) && o in matches;
      }
    }
  }

  /** A matched OTP that is written at once is written if and only if, for a first one, the order is
      waiting and, for a repeated one, its hold is open and the SMS came no later than the expiry. The
      order is then successful and has an OTP, and nothing else changes. */
  lemma DeliveredExactlyWhen(db: Db, o: OrderId, mode: MatchMode, receivedAt: Time)
    requires HoldInv(db) && o in db.orders
    ensures var after := Deliver(db, mode, receivedAt, LoadContext(db, o)); var order := db.orders[o];
            && (after.Some? <==>
                  if mode == First then order.status.WaitingSms?
                  else order.status.Success? && order.completedAt.None? && receivedAt <= order.expiresAt)
            && (after.Some? ==>
                  after.value == db.(orders := db.orders[o := order.(status := Success, otpReceived := true, version := order.version + 1)]))
  {
    CurrentOrderHolds(db, o);
    ReadContextOk(db, o);
    var c := LoadContext(db, o).value;
    AppliedExactlyWhenLegal(c.orderStatus, c.numberStatus, c.otpReceived, Command.Succeed);
    if c.orderStatus.WaitingSms? {
      AppliedPairsTheNumber(c.orderStatus, c.numberStatus, c.otpReceived, Command.Succeed);
    }
  }

  /** When an SMS that came in on a number belongs to an order. */
  predicate Awaits(order: Order, n: NumberId, mode: MatchMode, receivedAt: Time) {
    && order.numberId == n && order.windowStartsAt <= receivedAt <= order.expiresAt
    && if mode == First then order.status.WaitingSms? else order.status.Success? && order.completedAt.None?
  }

  /** In every reachable state the match finds exactly the order that awaits the SMS. */
  lemma MatchedExactlyWhenAwaited(steps: seq<Step>, n: NumberId, receivedAt: Time, candidates: seq<OrderId>, o: OrderId, mode: MatchMode)
    requires Enumerates(Run(steps).db, n, candidates)
    ensures var db := Run(steps).db;
            MatchSms(db, n, receivedAt, candidates) == Matched(o, mode) <==> o in db.orders && Awaits(db.orders[o], n, mode, receivedAt)
  {
    var db := Run(steps).db;
    EveryRunKeepsHolds(steps);
    MatchIsTheHolder(steps, n, receivedAt, candidates);
    if o in db.orders && Awaits(db.orders[o], n, mode, receivedAt) {
      assert Eligible(db.orders[o], n, receivedAt);
      EligibleHoldsTheNumber(db, n, o, receivedAt);
      assert CandidateRow(db, n, o);
    }
    if MatchSms(db, n, receivedAt, candidates).Matched? {
      assert MatchSms(db, n, receivedAt, candidates).orderId in EligibleIds(db, n, receivedAt, candidates);
    }
  }

  lemma MatchIsPut(s: State, a: AttemptId, n: NumberId, receivedAt: Time, candidates: seq<OrderId>, o: OrderId, mode: MatchMode)
    requires a !in s.attempts && Enumerates(s.db, n, candidates) && MatchSms(s.db, n, receivedAt, candidates) == Matched(o, mode)
    ensures Next(s, MatchIncoming(a, n, receivedAt, candidates)) == Advance(s, a, SmsMatched(n, o, mode, receivedAt))
  {
  }

  lemma MatchIsLoaded(s: State, a: AttemptId, n: NumberId, receivedAt: Time, o: OrderId, mode: MatchMode)
    requires a in s.attempts && s.attempts[a] == SmsMatched(n, o, mode, receivedAt)
    ensures Next(s, LoadMatched(a)) == Advance(s, a, SmsLoaded(n, mode, receivedAt, LoadContext(s.db, o)))
  {
  }

  lemma LoadedIsDelivered(s: State, a: AttemptId)
    requires a in s.attempts && s.attempts[a].SmsLoaded?
    ensures var SmsLoaded(_, mode, receivedAt, ctx) := s.attempts[a];
            Next(s, DeliverOtp(a)).db == Deliver(s.db, mode, receivedAt, ctx).GetOr(s.db)
  {
  }

  /** From every reachable state an undisturbed SMS reaches the order that awaits it. */
  lemma AwaitedSmsIsDelivered(steps: seq<Step>, a: AttemptId, n: NumberId, receivedAt: Time, candidates: seq<OrderId>, o: OrderId, mode: MatchMode)
    requires var s := Run(steps); a !in s.attempts && Enumerates(s.db, n, candidates)
    requires o in Run(steps).db.orders && Awaits(Run(steps).db.orders[o], n, mode, receivedAt)
    ensures var db := Run(steps).db; var order := db.orders[o];
            Next(Next(Next(Run(steps), MatchIncoming(a, n, receivedAt, candidates)), LoadMatched(a)), DeliverOtp(a)).db
            == db.(orders := db.orders[o := order.(status := Success, otpReceived := true, version := order.version + 1)])
  {
    var s := Run(steps);
    EveryRunKeepsHolds(steps);
    MatchedExactlyWhenAwaited(steps, n, receivedAt, candidates, o, mode);
    MatchIsPut(s, a, n, receivedAt, candidates, o, mode);
    var matched := Next(s, MatchIncoming(a, n, receivedAt, candidates));
    MatchIsLoaded(matched, a, n, receivedAt, o, mode);
    LoadedIsDelivered(Next(matched, LoadMatched(a)), a);
    DeliveredExactlyWhen(s.db, o, mode, receivedAt);
  }

  lemma DeliveredToTheHolder(db: Db, mode: MatchMode, receivedAt: Time, ctx: Option<Context>)
    requires HoldInv(db) && (ctx.Some? ==> ContextOk(db, ctx.value)) && Deliver(db, mode, receivedAt, ctx).Some?
    ensures var after := Deliver(db, mode, receivedAt, ctx).value;
            && ctx.Some? && ctx.value.orderId in db.orders && ctx.value.numberId in db.numbers
            && db.orders[ctx.value.orderId].numberId == ctx.value.numberId
            && db.numbers[ctx.value.numberId].currentOrder == Some(ctx.value.orderId) && db.numbers[ctx.value.numberId].status.Busy?
            && after.numbers == db.numbers && after.devices == db.devices
            && ctx.value.orderId in after.orders && after.orders[ctx.value.orderId].otpReceived
            && after.orders == db.orders[ctx.value.orderId := after.orders[ctx.value.orderId]]
  {
    var c := ctx.value;
    CurrentOrderHolds(db, c.orderId);
    if mode.First? {
      AppliedPairsTheNumber(c.orderStatus, c.numberStatus, c.otpReceived, Command.Succeed);
    }
  }

  /** An OTP is written to one order only, and only while that order holds the very number the SMS came in on. */
  lemma OtpReachesOnlyTheHolder(s: State, a: AttemptId)
    requires Inv(s) && a in s.attempts && s.attempts[a].SmsLoaded? && Next(s, DeliverOtp(a)).db != s.db
    ensures var n, ctx := s.attempts[a].numberId, s.attempts[a].ctx; var after := Next(s, DeliverOtp(a)).db;
            && ctx.Some? && ctx.value.orderId in s.db.orders && n in s.db.numbers
            && s.db.orders[ctx.value.orderId].numberId == n
            && s.db.numbers[n].currentOrder == Some(ctx.value.orderId) && s.db.numbers[n].status.Busy?
            && after.numbers == s.db.numbers && after.devices == s.db.devices
            && ctx.value.orderId in after.orders && after.orders[ctx.value.orderId].otpReceived
            && after.orders == s.db.orders[ctx.value.orderId := after.orders[ctx.value.orderId]]
  {
    var SmsLoaded(_, mode, receivedAt, ctx) := s.attempts[a];
    assert AttemptOk(s.db, s.attempts[a]);
    assert SmsStep(s, DeliverOtp(a)) == Written(s, a, Deliver(s.db, mode, receivedAt, ctx));
    if Deliver(s.db, mode, receivedAt, ctx).Some? { DeliveredToTheHolder(s.db, mode, receivedAt, ctx); }
  }

  /** An expiry sweep never closes a window at an instant the matcher still accepts. */
  lemma SweepSparesWhatTheMatcherAccepts(ctx: Context, order: Order, n: NumberId, t: Time, config: Config)
    requires order.status.Success? && Eligible(order, n, t)
    requires ctx.orderStatus == order.status && ctx.completedAt == order.completedAt && ctx.expiresAt == order.expiresAt
    ensures DecideHoldRelease(ListeningOrderOf(ctx), ctx.numberStatus, ctx.numberCurrentOrder, ExpirySweep, Finite(t),
                              ReleaseContextOf(ctx, config, t)) == Refuse(WindowStillOpen)
  {
    SweepClosesExactlyWhatNoLongerListens(ListeningOrderOf(ctx), ctx.numberStatus, ctx.numberCurrentOrder, Finite(t),
                                          ReleaseContextOf(ctx, config, t));
  }

  /** The timeout is less careful: at one instant, the expiry itself, a waiting order both matches an
      SMS and may be timed out. At every other instant at most one of the two is possible. */
  lemma TimeoutMeetsMatcherExactlyAtExpiry(order: Order, o: OrderId, reason: string, ctx: Context, t: Time, config: Config)
    requires order.status.WaitingSms? && order.windowStartsAt <= order.expiresAt && order.windowStartsAt <= t
    requires ctx.orderStatus == order.status && ctx.numberStatus.Busy? && !ctx.otpReceived && ctx.expiresAt == order.expiresAt
    ensures Eligible(order, order.numberId, t)
              && Decide(ctx.orderStatus, ctx.numberStatus, ctx.otpReceived, CommandOf(TimeoutOrder(o, reason, t), ctx, config, t)).Apply?
            <==> t == order.expiresAt
  {
    AppliedExactlyWhenLegal(ctx.orderStatus, ctx.numberStatus, ctx.otpReceived, CommandOf(TimeoutOrder(o, reason, t), ctx, config, t));
  }
}
