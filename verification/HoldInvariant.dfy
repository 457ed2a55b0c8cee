/** What every interleaving of the workers keeps true of orders, numbers and idempotency records. */
module HoldInvariant {
  import opened Prelude
  import opened OrderStateMachine
  import opened ListeningWindow
  import opened Marketplace

  // ---------------------------------------------------------------------------
  // The invariant
  // ---------------------------------------------------------------------------

  function HeldBy(order: Order): Option<NumberStatus> {
    HeldAs(order.status, order.completedAt.Some?)
  }

  predicate Holding(order: Order) { HeldBy(order).Some? }

  predicate OrderOk(order: Order) {
    && (order.completedAt.Some? ==> order.status.Success?)
    && (order.otpReceived ==> order.status.Success?)
  }

  /** The order's side: its number exists, and points back at the order while the order holds it. */
  predicate OrderRow(db: Db, o: OrderId) {
    o in db.orders ==>
      && OrderOk(db.orders[o])
      && db.orders[o].numberId in db.numbers
      && (Holding(db.orders[o]) ==> db.numbers[db.orders[o].numberId].currentOrder == Some(o))
  }

  /** The number's side: it is `reserved` or `busy` exactly when its current order holds it in that very status. */
  predicate NumberRow(db: Db, n: NumberId) {
    n in db.numbers ==>
      var number := db.numbers[n];
      && number.deviceId in db.devices
      && (number.enabled <==> !number.status.Disabled?)
      && match number.currentOrder
         case None => Idle(number.status)
         case Some(o) => o in db.orders && db.orders[o].numberId == n && HeldBy(db.orders[o]) == Some(number.status)
  }

  ghost predicate HoldInv(db: Db) {
    && (forall o: OrderId {:trigger OrderRow(db, o)} :: OrderRow(db, o))
    && (forall n: NumberId {:trigger NumberRow(db, n)} :: NumberRow(db, n))
  }

  /** How far an order has come; the last rank is reached once its hold, if any, is over for good. */
  function RankOf(status: OrderStatus, completed: bool): nat {
    match status
    case Created => 0
    case Reserved => 1
    case WaitingSms => 2
    case Success => if completed then 4 else 3
    case _ => 4
  }

  function Rank(order: Order): nat { RankOf(order.status, order.completedAt.Some?) }

  /** What may happen to an order between two states of a run. */
  predicate OrderExtends(before: Order, after: Order) {
    && after.numberId == before.numberId
    && after.createdAt == before.createdAt
    && after.expiresAt == before.expiresAt
    && before.version <= after.version
    // the version counts every change but the redaction of the OTP
    && (after.version == before.version ==> after == before || after == before.(otpReceived := false))
    && Rank(before) <= Rank(after)
    && (IsTerminal(before.status) ==> after.status == before.status)
    && (before.completedAt.Some? ==> after.completedAt == before.completedAt)
  }

  predicate Kept(before: Db, after: Db, o: OrderId) {
    o in before.orders ==> o in after.orders && OrderExtends(before.orders[o], after.orders[o])
  }

  ghost predicate Extends(before: Db, after: Db) {
    forall o: OrderId {:trigger Kept(before, after, o)} :: Kept(before, after, o)
  }

  /** A context read at some earlier point of the run: true of the order then, and still binding now. */
  predicate ContextOk(db: Db, c: Context) {
    && c.orderId in db.orders
    && var order := db.orders[c.orderId];
    && order.numberId == c.numberId && order.createdAt == c.createdAt && order.expiresAt == c.expiresAt
    && c.version <= order.version
    && RankOf(c.orderStatus, c.completedAt.Some?) <= Rank(order)
    && (IsTerminal(c.orderStatus) ==> order.status == c.orderStatus)
    && (c.completedAt.Some? ==> c.orderStatus.Success? && order.completedAt == c.completedAt)
    && (c.otpReceived ==> c.orderStatus.Success?)
    && var held := HeldAs(c.orderStatus, c.completedAt.Some?);
    && (held.Some? ==> c.numberStatus == held.value && c.numberCurrentOrder == Some(c.orderId))
  }

  /** What the selection of a job guarantees for as long as the selected item is in flight. */
  predicate KeyOk(db: Db, key: RecordKey, op: Operation) {
    match key
    case CallerKey(scope, _, _) => scope == ScopeOf(op)
    case TimeoutJobKey(o) =>
      && o in db.orders && Rank(db.orders[o]) >= 1
      && op.TimeoutOrder? && op.orderId == o && op.reason == JOB_TIMEOUT_REASON && db.orders[o].expiresAt <= op.observedAt
    case SweepJobKey(o) =>
      && o in db.orders && db.orders[o].status.Success?
      && op.CompleteOrder? && op.orderId == o && op.trigger.ExpirySweep?
      && op.instant.Some? && db.orders[o].expiresAt < op.instant.value
  }

  predicate ResponseTrue(db: Db, op: Operation, response: Response) {
    match response
    case TerminalOk(o, status, _, _) =>
      && o == op.orderId && o in db.orders && !op.CompleteOrder?
      && db.orders[o].status == status && status in {Cancelled, OrderStatus.Timeout, OrderStatus.Failed}
      && (op.TimeoutOrder? ==> status.Timeout?)
    case CompleteOk(o, completedAt, _) =>
      && o == op.orderId && o in db.orders && op.CompleteOrder?
      && db.orders[o].status.Success? && db.orders[o].completedAt == Some(completedAt)
    case Refused(_) => true
  }

  predicate RecordOk(db: Db, key: RecordKey, record: Record) {
    && ResponseTrue(db, record.identity, record.response)
    && record.identity == Identity(record.identity)
    && match key
       case CallerKey(_, _, _) => true
       case SweepJobKey(o) =>
         // never a rejection
         record.identity == CompleteOrder(o, ExpirySweep, None) && record.response.CompleteOk?
       case TimeoutJobKey(o) =>
         && record.identity == TimeoutOrder(o, JOB_TIMEOUT_REASON, 0)
         // a rejection only when the order is already in another terminal state
         && o in db.orders
         && (record.response.Refused? ==> db.orders[o].status in {Success, Cancelled, OrderStatus.Failed})
  }

  predicate OutcomeOk(db: Db, op: Operation, outcome: Outcome) {
    match outcome
    case Executed(response) => ResponseTrue(db, op, response)
    case Replayed(response) => ResponseTrue(db, op, response)
    case _ => true
  }

  predicate AttemptOk(db: Db, attempt: Attempt) {
    match attempt
    case Selected(key, op) => KeyOk(db, key, op)
    case Executing(key, op) => KeyOk(db, key, op)
    case Prepared(key, op, ctx) =>
      && KeyOk(db, key, op)
      && (ctx.None? ==> key.CallerKey?)
      && (ctx.Some? ==> ctx.value.orderId == op.orderId && ContextOk(db, ctx.value))
      && (key.TimeoutJobKey? ==> !ctx.value.orderStatus.Created?)
      && (key.SweepJobKey? ==> ctx.value.orderStatus.Success?)
    case LostRace(key, op) => KeyOk(db, key, op)
    case Finished(_, op, outcome) => OutcomeOk(db, op, outcome)
    case SmsMatched(n, o, _, _) => o in db.orders && db.orders[o].numberId == n
    case SmsLoaded(n, _, _, ctx) => ctx.Some? ==> ContextOk(db, ctx.value) && ctx.value.numberId == n
    case Recovering(ctx, _) => ContextOk(db, ctx) && ctx.orderStatus.Reserved?
    case StatusWrite(_, from, to, enabled) =>
      && Idle(from) && Idle(to)
      && (match enabled
          case None => !from.Disabled? && !to.Disabled?
          case Some(b) => b <==> !to.Disabled?)
    case MoveWrite(_, from, _) => Idle(from)
    case DeleteWrite(_) => true
  }

  ghost predicate Inv(s: State) {
    && HoldInv(s.db)
    && (forall a <- s.attempts :: AttemptOk(s.db, s.attempts[a]))
    && (forall k <- s.records :: RecordOk(s.db, k, s.records[k]))
  }

  // ---------------------------------------------------------------------------
  // Facts that no later state can undo
  // ---------------------------------------------------------------------------

  lemma ExtendsReflexive(db: Db)
    ensures Extends(db, db)
  {
  }

  lemma ExtendsTransitive(x: Db, y: Db, z: Db)
    requires Extends(x, y) && Extends(y, z)
    ensures Extends(x, z)
  {
    forall o: OrderId ensures Kept(x, z, o) {
      assert Kept(x, y, o) && Kept(y, z, o);
    }
  }

  lemma KeyStable(before: Db, after: Db, key: RecordKey, op: Operation)
    requires Extends(before, after) && KeyOk(before, key, op)
    ensures KeyOk(after, key, op)
  {
    assert Kept(before, after, op.orderId);
  }

  lemma AttemptStable(before: Db, after: Db, attempt: Attempt)
    requires Extends(before, after) && AttemptOk(before, attempt)
    ensures AttemptOk(after, attempt)
  {
    match attempt
    case Selected(key, op) => KeyStable(before, after, key, op);
    case Executing(key, op) => KeyStable(before, after, key, op);
    case Prepared(key, op, ctx) =>
      KeyStable(before, after, key, op);
      if ctx.Some? { assert Kept(before, after, ctx.value.orderId); }
    case LostRace(key, op) => KeyStable(before, after, key, op);
    case Finished(_, op, outcome) => assert Kept(before, after, op.orderId);
    case SmsMatched(_, o, _, _) => assert Kept(before, after, o);
    case SmsLoaded(_, _, _, ctx) => if ctx.Some? { assert Kept(before, after, ctx.value.orderId); }
    case Recovering(ctx, _) => assert Kept(before, after, ctx.orderId);
    case _ =>
  }

  lemma RecordStable(before: Db, after: Db, key: RecordKey, record: Record)
    requires Extends(before, after) && RecordOk(before, key, record)
    ensures RecordOk(after, key, record)
  {
    assert Kept(before, after, record.identity.orderId);
  }

  /** Anything known about attempts and records survives a change of the rows. */
  lemma Rebase(s: State, db: Db)
    requires Inv(s) && HoldInv(db) && Extends(s.db, db)
    ensures Inv(s.(db := db))
  {
    forall a <- s.attempts ensures AttemptOk(db, s.attempts[a]) {
      AttemptStable(s.db, db, s.attempts[a]);
    }
    forall k <- s.records ensures RecordOk(db, k, s.records[k]) {
      RecordStable(s.db, db, k, s.records[k]);
    }
  }

  // ---------------------------------------------------------------------------
  // The kinds of edit the writes are made of
  // ---------------------------------------------------------------------------

  /** An order and its number change together. */
  lemma EditPair(db: Db, o: OrderId, order: Order, number: PhoneNumber)
    requires HoldInv(db) && o in db.orders && OrderOk(order) && OrderExtends(db.orders[o], order)
    requires order.numberId in db.numbers && db.numbers[order.numberId].currentOrder in {None, Some(o)}
    requires number.deviceId in db.devices
    requires number.enabled <==> !number.status.Disabled?
    requires match HeldBy(order)
             case Some(h) => number.currentOrder == Some(o) && number.status == h
             case None => number.currentOrder == None && Idle(number.status)
    ensures var after := db.(orders := db.orders[o := order], numbers := db.numbers[order.numberId := number]);
            HoldInv(after) && Extends(db, after)
  {
    var after := db.(orders := db.orders[o := order], numbers := db.numbers[order.numberId := number]);
    forall p: OrderId ensures OrderRow(after, p) && Kept(db, after, p) {
      assert OrderRow(db, p);
    }
    forall n: NumberId ensures NumberRow(after, n) {
      assert NumberRow(db, n) && NumberRow(db, order.numberId);
    }
  }

  /** An order changes but goes on holding, or not holding, exactly as before. */
  lemma EditOrder(db: Db, o: OrderId, order: Order)
    requires HoldInv(db) && o in db.orders && OrderOk(order) && OrderExtends(db.orders[o], order)
    requires HeldBy(order) == HeldBy(db.orders[o])
    ensures var after := db.(orders := db.orders[o := order]); HoldInv(after) && Extends(db, after)
  {
    var after := db.(orders := db.orders[o := order]);
    forall p: OrderId ensures OrderRow(after, p) && Kept(db, after, p) {
      assert OrderRow(db, p);
    }
    forall n: NumberId ensures NumberRow(after, n) {
      assert NumberRow(db, n);
    }
  }

  /** A number nobody holds changes and stays unheld. */
  lemma EditIdleNumber(db: Db, n: NumberId, number: PhoneNumber)
    requires HoldInv(db) && n in db.numbers && Idle(db.numbers[n].status)
    requires Idle(number.status) && number.currentOrder == db.numbers[n].currentOrder
    requires number.deviceId in db.devices
    requires number.enabled <==> !number.status.Disabled?
    ensures var after := db.(numbers := db.numbers[n := number]); HoldInv(after) && Extends(db, after)
  {
    var after := db.(numbers := db.numbers[n := number]);
    assert NumberRow(db, n);
    forall p: OrderId ensures OrderRow(after, p) && Kept(db, after, p) {
      assert OrderRow(db, p);
    }
    forall m: NumberId ensures NumberRow(after, m) {
      assert NumberRow(db, m);
    }
  }

  /** The current order of a held number holds it. */
  lemma CurrentOrderHolds(db: Db, o: OrderId)
    requires HoldInv(db) && o in db.orders
    ensures var n := db.orders[o].numberId;
            && n in db.numbers && NumberRow(db, n) && OrderRow(db, o)
            && (db.numbers[n].currentOrder == Some(o) <==> Holding(db.orders[o]))
            && (Holding(db.orders[o]) ==> db.numbers[n].status == HeldBy(db.orders[o]).value)
  {
    assert OrderRow(db, o) && NumberRow(db, db.orders[o].numberId);
  }

  /** The end of a hold: the order lets go and its number is released in the same transaction. */
  lemma EndOfHold(db: Db, o: OrderId, order: Order, from: NumberStatus, to: NumberStatus)
    requires HoldInv(db) && o in db.orders && OrderOk(order) && OrderExtends(db.orders[o], order)
    requires Holding(db.orders[o]) && !Holding(order)
    requires from == HeldBy(db.orders[o]).value && to in {NumberStatus.Offline, Available}
    ensures var after := ReleaseNumber(db.(orders := db.orders[o := order]), order.numberId, o, from, to);
            && after.Some? && HoldInv(after.value) && Extends(db, after.value)
            && after.value.orders == db.orders[o := order]
            && after.value.numbers[order.numberId].status == to && after.value.numbers[order.numberId].currentOrder == None
  {
    CurrentOrderHolds(db, o);
    EditPair(db, o, order, db.numbers[order.numberId].(status := to, currentOrder := None));
  }

  // ---------------------------------------------------------------------------
  // The writes
  // ---------------------------------------------------------------------------

  /** All that matters of an applied cancel, timeout or failure. */
  predicate EndsOrder(c: Context, d: Decision) {
    && d.Apply? && d.expectedOrder == c.orderStatus && !IsTerminal(c.orderStatus)
    && d.nextOrder in {Cancelled, OrderStatus.Timeout, OrderStatus.Failed}
    && (c.orderStatus.Created? ==> d.nextNumber == c.numberStatus)
    && (!c.orderStatus.Created? ==> d.nextNumber in {NumberStatus.Offline, Available} && d.nextNumber != c.numberStatus)
  }

  lemma AppliedEndsOrder(c: Context, command: Command)
    requires command.Cancel? || command.Timeout? || command.Fail?
    requires Decide(c.orderStatus, c.numberStatus, c.otpReceived, command).Apply?
    ensures EndsOrder(c, Decide(c.orderStatus, c.numberStatus, c.otpReceived, command))
  {
    AppliedExactlyWhenLegal(c.orderStatus, c.numberStatus, c.otpReceived, command);
    AppliedPairsTheNumber(c.orderStatus, c.numberStatus, c.otpReceived, command);
    if !c.orderStatus.Created? {
      ReleasedAsAvailableExactlyWhen(command.release);
    }
  }

  lemma ApplyTerminalKeeps(db: Db, c: Context, d: Decision)
    requires HoldInv(db) && ContextOk(db, c) && EndsOrder(c, d)
    requires ApplyTerminal(db, c, d).Some?
    ensures var after := ApplyTerminal(db, c, d).value;
            && HoldInv(after) && Extends(db, after)
            && c.orderId in after.orders && after.orders[c.orderId].status == d.nextOrder
  {
    var order := db.orders[c.orderId];
    var settled := order.(status := d.nextOrder, version := order.version + 1);
    assert OrderRow(db, c.orderId);
    if c.orderStatus.Created? {
      EditOrder(db, c.orderId, settled);
    } else {
      assert HeldBy(order) == Some(c.numberStatus);
      assert !Holding(settled) && OrderExtends(order, settled);
      EndOfHold(db, c.orderId, settled, c.numberStatus, d.nextNumber);
    }
  }

  /** All that matters of a granted hold release. */
  predicate EndsHold(c: Context, d: HoldRelease) {
    && d.Release? && c.orderStatus.Success? && c.completedAt.None?
    && (c.numberStatus.Busy? && c.numberCurrentOrder == Some(c.orderId) ==>
          d.numberChanged && d.nextNumber in {NumberStatus.Offline, Available})
  }

  lemma ReleasedEndsHold(c: Context, trigger: Trigger, observedAt: Time, release: ReleaseContext)
    requires DecideHoldRelease(ListeningOrderOf(c), c.numberStatus, c.numberCurrentOrder, trigger, Finite(observedAt), release).Release?
    ensures EndsHold(c, DecideHoldRelease(ListeningOrderOf(c), c.numberStatus, c.numberCurrentOrder, trigger, Finite(observedAt), release))
  {
    ReleaseFreesOnlyItsOwnNumber(ListeningOrderOf(c), c.numberStatus, c.numberCurrentOrder, trigger, Finite(observedAt), release);
    ReleasedAsAvailableExactlyWhen(release);
  }

  lemma ApplyHoldReleaseKeeps(db: Db, c: Context, observedAt: Time, d: HoldRelease)
    requires HoldInv(db) && ContextOk(db, c) && EndsHold(c, d)
    requires ApplyHoldRelease(db, c, observedAt, d.nextNumber, d.numberChanged).Some?
    ensures var after := ApplyHoldRelease(db, c, observedAt, d.nextNumber, d.numberChanged).value;
            && HoldInv(after) && Extends(db, after) && c.orderId in after.orders
            && after.orders[c.orderId].status.Success? && after.orders[c.orderId].completedAt == Some(observedAt)
  {
    var order := db.orders[c.orderId];
    var stamped := order.(completedAt := Some(observedAt), version := order.version + 1);
    assert HeldBy(order) == Some(c.numberStatus);
    assert !Holding(stamped) && OrderExtends(order, stamped);
    EndOfHold(db, c.orderId, stamped, c.numberStatus, d.nextNumber);
  }

  lemma PromoteKeeps(db: Db, o: OrderId, version: nat, n: NumberId, now: Time)
    requires HoldInv(db) && Promote(db, o, version, n, now).Some?
    ensures var after := Promote(db, o, version, n, now).value; HoldInv(after) && Extends(db, after)
  {
    assert OrderRow(db, o) && NumberRow(db, n);
    var order := db.orders[o];
    EditPair(db, o, order.(status := WaitingSms, version := version + 1, windowStartsAt := now),
             db.numbers[n].(status := Busy));
  }

  lemma ReserveKeeps(db: Db, o: OrderId, n: NumberId)
    requires HoldInv(db) && ReserveNumber(db, o, n).Some?
    ensures var after := ReserveNumber(db, o, n).value; HoldInv(after) && Extends(db, after)
  {
    var order := db.orders[o];
    assert OrderRow(db, o) && NumberRow(db, n);
    assert Decide(Created, db.numbers[n].status, false, Command.Reserve)
           == Apply(Created, Some(Available), OrderStatus.Reserved, NumberStatus.Reserved, None);
    EditPair(db, o, order.(status := OrderStatus.Reserved, version := order.version + 1),
             db.numbers[n].(status := NumberStatus.Reserved, currentOrder := Some(o)));
  }

  lemma ApplySuccessKeeps(db: Db, c: Context, d: Decision)
    requires HoldInv(db) && ContextOk(db, c)
    requires d == Decide(c.orderStatus, c.numberStatus, c.otpReceived, Command.Succeed) && d.Apply?
    requires ApplySuccess(db, c, d).Some?
    ensures var after := ApplySuccess(db, c, d).value; HoldInv(after) && Extends(db, after)
  {
    AppliedPairsTheNumber(c.orderStatus, c.numberStatus, c.otpReceived, Command.Succeed);
    var order := db.orders[c.orderId];
    assert OrderRow(db, c.orderId);
    EditOrder(db, c.orderId, order.(status := Success, otpReceived := true, version := order.version + 1));
  }

  lemma ApplyRepeatOtpKeeps(db: Db, c: Context)
    requires HoldInv(db) && ApplyRepeatOtp(db, c).Some?
    ensures var after := ApplyRepeatOtp(db, c).value; HoldInv(after) && Extends(db, after)
  {
    var order := db.orders[c.orderId];
    assert OrderRow(db, c.orderId);
    EditOrder(db, c.orderId, order.(otpReceived := true, version := order.version + 1));
  }

  lemma ReadContextOk(db: Db, o: OrderId)
    requires HoldInv(db)
    ensures LoadContext(db, o).Some? <==> o in db.orders
    ensures o in db.orders ==> LoadContext(db, o).value.orderId == o && ContextOk(db, LoadContext(db, o).value)
  {
    if o in db.orders {
      CurrentOrderHolds(db, o);
    }
  }

  // ---------------------------------------------------------------------------
  // The actions
  // ---------------------------------------------------------------------------

  /** What every action keeps, and what it may do to the orders. */
  ghost predicate Preserves(s: State, after: State) { Inv(after) && Extends(s.db, after.db) }

  lemma PutKeeps(s: State, a: AttemptId, attempt: Attempt)
    requires Inv(s) && AttemptOk(s.db, attempt)
    ensures Preserves(s, Put(s, a, attempt)) && Preserves(s, Advance(s, a, attempt))
  {
  }

  lemma RetireKeeps(s: State, a: AttemptId)
    requires Inv(s)
    ensures Preserves(s, Retire(s, a))
  {
  }

  lemma RowsKeep(s: State, db: Db)
    requires Inv(s) && HoldInv(db) && Extends(s.db, db)
    ensures Preserves(s, s.(db := db))
  {
    Rebase(s, db);
  }

  lemma WrittenKeeps(s: State, a: AttemptId, db: Option<Db>)
    requires Inv(s) && (db.Some? ==> HoldInv(db.value) && Extends(s.db, db.value))
    ensures Preserves(s, Written(s, a, db))
  {
    RetireKeeps(s, a);
    if db.Some? {
      Rebase(Retire(s, a), db.value);
    }
  }

  // --- inventory -------------------------------------------------------------

  lemma WriteNumberStatusKeeps(db: Db, n: NumberId, from: NumberStatus, to: NumberStatus, enabled: Option<bool>)
    requires HoldInv(db) && AttemptOk(db, StatusWrite(n, from, to, enabled))
    ensures var after := WriteNumberStatus(db, n, from, to, enabled);
            after.Some? ==> HoldInv(after.value) && Extends(db, after.value)
  {
    var after := WriteNumberStatus(db, n, from, to, enabled);
    if after.Some? {
      assert NumberRow(db, n);
      EditIdleNumber(db, n, after.value.numbers[n]);
    }
  }

  /** A deletion checks nothing when it lands, but the orders' foreign key keeps every held number. */
  lemma DeleteKeeps(db: Db, n: NumberId)
    requires HoldInv(db) && forall o <- db.orders :: db.orders[o].numberId != n
    ensures var after := db.(numbers := db.numbers - {n}); HoldInv(after) && Extends(db, after)
  {
    var after := db.(numbers := db.numbers - {n});
    forall m: NumberId ensures NumberRow(after, m) { assert NumberRow(db, m); }
    forall o: OrderId ensures OrderRow(after, o) && Kept(db, after, o) { assert OrderRow(db, o); }
  }

  lemma WriteNumberKeeps(s: State, a: AttemptId)
    requires Inv(s) && a in s.attempts
    ensures Preserves(s, InventoryStep(s, WriteNumber(a)))
  {
    var attempt := s.attempts[a];
    assert AttemptOk(s.db, attempt);
    match attempt
    case StatusWrite(n, from, to, enabled) =>
      WriteNumberStatusKeeps(s.db, n, from, to, enabled);
      WrittenKeeps(s, a, WriteNumberStatus(s.db, n, from, to, enabled));
    case MoveWrite(n, from, d) =>
      if n !in s.db.numbers || s.db.numbers[n].status != from || d !in s.db.devices {
        RetireKeeps(s, a);
      } else {
        assert NumberRow(s.db, n);
        var number := s.db.numbers[n].(deviceId := d);
        EditIdleNumber(s.db, n, number);
        WrittenKeeps(s, a, Some(s.db.(numbers := s.db.numbers[n := number])));
      }
    case DeleteWrite(n) =>
      RetireKeeps(s, a);
      if n in s.db.numbers && forall o <- s.db.orders :: s.db.orders[o].numberId != n {
        DeleteKeeps(s.db, n);
        WrittenKeeps(s, a, Some(s.db.(numbers := s.db.numbers - {n})));
      }
    case _ =>
      ExtendsReflexive(s.db);
  }

  lemma WriteDeviceKeeps(s: State, d: DeviceId, device: Device)
    requires Inv(s)
    ensures Preserves(s, InventoryStep(s, WriteDevice(d, device)))
  {
    var db := s.db.(devices := s.db.devices[d := device]);
    forall n: NumberId ensures NumberRow(db, n) { assert NumberRow(s.db, n); }
    forall o: OrderId ensures OrderRow(db, o) && Kept(s.db, db, o) { assert OrderRow(s.db, o); }
    RowsKeep(s, db);
  }

  lemma RegisterNumberKeeps(s: State, n: NumberId, d: DeviceId)
    requires Inv(s)
    ensures Preserves(s, InventoryStep(s, RegisterNumber(n, d)))
  {
    ExtendsReflexive(s.db);
    if n !in s.db.numbers && d in s.db.devices {
      var db := s.db.(numbers := s.db.numbers[n := PhoneNumber(d, NumberStatus.Offline, true, None)]);
      forall m: NumberId ensures NumberRow(db, m) { assert NumberRow(s.db, m); }
      forall o: OrderId ensures OrderRow(db, o) && Kept(s.db, db, o) { assert OrderRow(s.db, o); }
      RowsKeep(s, db);
    }
  }

  lemma ReadForHeartbeatKeeps(s: State, a: AttemptId, n: NumberId, hasActiveOffer: bool, now: Time, timeoutSeconds: nat)
    requires Inv(s)
    ensures Preserves(s, InventoryStep(s, ReadForHeartbeat(a, n, hasActiveOffer, now, timeoutSeconds)))
  {
    ExtendsReflexive(s.db);
    if n in s.db.numbers {
      assert NumberRow(s.db, n);
    }
  }

  lemma ReadForAvailabilityKeeps(
    s: State, a: AttemptId, n: NumberId, requested: Availability, hasActiveOffer: bool, now: Time, timeoutSeconds: nat)
    requires Inv(s)
    ensures Preserves(s, InventoryStep(s, ReadForAvailability(a, n, requested, hasActiveOffer, now, timeoutSeconds)))
  {
    ExtendsReflexive(s.db);
    if n in s.db.numbers {
      assert NumberRow(s.db, n);
    }
  }

  lemma GuardedWriteKeeps(s: State, step: Step)
    requires Inv(s) && (step.SweepOffline? || step.AdminDisable?)
    ensures Preserves(s, InventoryStep(s, step))
  {
    ExtendsReflexive(s.db);
    var after := InventoryStep(s, step);
    if after != s {
      if step.SweepOffline? {
        WriteNumberStatusKeeps(s.db, step.n, Available, NumberStatus.Offline, None);
      } else {
        assert NumberRow(s.db, step.n);
        EditIdleNumber(s.db, step.n, s.db.numbers[step.n].(status := NumberStatus.Disabled, enabled := false));
      }
      RowsKeep(s, after.db);
    }
  }

  lemma ReadForManagementKeeps(s: State, step: Step)
    requires Inv(s) && (step.ReadForDisable? || step.ReadForReEnable? || step.ReadForMove? || step.ReadForDelete?)
    ensures Preserves(s, InventoryStep(s, step))
  {
    ExtendsReflexive(s.db);
    match step
    case ReadForDisable(a, n) =>
      if n in s.db.numbers && Idle(s.db.numbers[n].status) {
        PutKeeps(s, a, StatusWrite(n, s.db.numbers[n].status, NumberStatus.Disabled, Some(false)));
      }
    case ReadForReEnable(a, n) =>
      PutKeeps(s, a, StatusWrite(n, NumberStatus.Disabled, NumberStatus.Offline, Some(true)));
    case ReadForMove(a, n, d) =>
      if n in s.db.numbers && Idle(s.db.numbers[n].status) {
        PutKeeps(s, a, MoveWrite(n, s.db.numbers[n].status, d));
      }
    case ReadForDelete(a, n) =>
      PutKeeps(s, a, DeleteWrite(n));
  }

  lemma InventoryStepKeeps(s: State, step: Step)
    requires Inv(s)
    ensures Preserves(s, InventoryStep(s, step))
  {
    match step
    case WriteDevice(d, device) => WriteDeviceKeeps(s, d, device);
    case RegisterNumber(n, d) => RegisterNumberKeeps(s, n, d);
    case ReadForHeartbeat(a, n, hasActiveOffer, now, timeoutSeconds) =>
      ReadForHeartbeatKeeps(s, a, n, hasActiveOffer, now, timeoutSeconds);
    case ReadForAvailability(a, n, requested, hasActiveOffer, now, timeoutSeconds) =>
      ReadForAvailabilityKeeps(s, a, n, requested, hasActiveOffer, now, timeoutSeconds);
    case ReadForDisable(_, _) => ReadForManagementKeeps(s, step);
    case ReadForReEnable(_, _) => ReadForManagementKeeps(s, step);
    case ReadForMove(_, _, _) => ReadForManagementKeeps(s, step);
    case ReadForDelete(_, _) => ReadForManagementKeeps(s, step);
    case WriteNumber(a) =>
      if a in s.attempts { WriteNumberKeeps(s, a); } else { ExtendsReflexive(s.db); }
    case SweepOffline(_) => GuardedWriteKeeps(s, step);
    case AdminDisable(_) => GuardedWriteKeeps(s, step);
    case _ => ExtendsReflexive(s.db);
  }

  // --- orders ----------------------------------------------------------------

  lemma CreateOrderKeeps(s: State, o: OrderId, n: NumberId, createdAt: Time, expiresAt: Time)
    requires Inv(s)
    ensures Preserves(s, OrderStep(s, CreateOrder(o, n, createdAt, expiresAt)))
  {
    ExtendsReflexive(s.db);
    if o !in s.db.orders && n in s.db.numbers {
      var db := OrderStep(s, CreateOrder(o, n, createdAt, expiresAt)).db;
      forall m: NumberId ensures NumberRow(db, m) { assert NumberRow(s.db, m); }
      forall p: OrderId ensures OrderRow(db, p) && Kept(s.db, db, p) { assert OrderRow(s.db, p); }
      RowsKeep(s, db);
    }
  }

  lemma OrderStepKeeps(s: State, step: Step)
    requires Inv(s)
    ensures Preserves(s, OrderStep(s, step))
  {
    match step
    case CreateOrder(o, n, createdAt, expiresAt) => CreateOrderKeeps(s, o, n, createdAt, expiresAt);
    case Reserve(o) =>
      if o in s.db.orders && ReserveNumber(s.db, o, s.db.orders[o].numberId).Some? {
        ReserveKeeps(s.db, o, s.db.orders[o].numberId);
        RowsKeep(s, ReserveNumber(s.db, o, s.db.orders[o].numberId).value);
      }
    case Activate(o, now) =>
      if o in s.db.orders && Promote(s.db, o, s.db.orders[o].version, s.db.orders[o].numberId, now).Some? {
        PromoteKeeps(s.db, o, s.db.orders[o].version, s.db.orders[o].numberId, now);
        RowsKeep(s, Promote(s.db, o, s.db.orders[o].version, s.db.orders[o].numberId, now).value);
      }
    case RedactOtp(o) =>
      if o in s.db.orders && IsTerminal(s.db.orders[o].status) {
        assert OrderRow(s.db, o);
        EditOrder(s.db, o, s.db.orders[o].(otpReceived := false));
        RowsKeep(s, OrderStep(s, step).db);
      }
    case _ =>
  }

  // --- idempotent commands ---------------------------------------------------

  /** Only an order that is already in another terminal state refuses the timeout job. */
  lemma TimeoutJobRefusedOnlyByOtherTerminals(db: Db, o: OrderId, op: Operation, c: Context, config: Config, now: Time)
    requires HoldInv(db) && AttemptOk(db, Prepared(TimeoutJobKey(o), op, Some(c)))
    requires Decide(c.orderStatus, c.numberStatus, c.otpReceived, CommandOf(op, c, config, now)).Reject?
    ensures db.orders[o].status in {Success, Cancelled, OrderStatus.Failed}
  {
    AppliedExactlyWhenLegal(c.orderStatus, c.numberStatus, c.otpReceived, CommandOf(op, c, config, now));
  }

  /** What a settled effect leaves behind, and what its record will say from then on. */
  ghost predicate SettledOk(db: Db, key: RecordKey, op: Operation, effect: Effect) {
    effect.Settled? ==>
      && HoldInv(effect.db) && Extends(db, effect.db)
      && ResponseTrue(effect.db, op, effect.response)
      && RecordOk(effect.db, key, Record(Identity(op), effect.response))
  }

  lemma TerminalEffectKeeps(db: Db, key: RecordKey, op: Operation, c: Context, config: Config, now: Time)
    requires HoldInv(db) && AttemptOk(db, Prepared(key, op, Some(c))) && !op.CompleteOrder?
    ensures SettledOk(db, key, op, TerminalEffect(db, op, Some(c), config, now))
  {
    ExtendsReflexive(db);
    var command := CommandOf(op, c, config, now);
    var d := Decide(c.orderStatus, c.numberStatus, c.otpReceived, command);
    match d
    case Apply(_, _, _, _, _) =>
      AppliedEndsOrder(c, command);
      AppliedExactlyWhenLegal(c.orderStatus, c.numberStatus, c.otpReceived, command);
      if ApplyTerminal(db, c, d).Some? { ApplyTerminalKeeps(db, c, d); }
    case NoChange(_, _, _) =>
    case Reject(_, _) =>
      if key.TimeoutJobKey? { TimeoutJobRefusedOnlyByOtherTerminals(db, key.orderId, op, c, config, now); }
  }

  lemma CompleteEffectKeeps(db: Db, key: RecordKey, op: Operation, c: Context, config: Config, now: Time)
    requires HoldInv(db) && AttemptOk(db, Prepared(key, op, Some(c))) && op.CompleteOrder?
    ensures SettledOk(db, key, op, CompleteEffect(db, op, Some(c), config, now))
  {
    ExtendsReflexive(db);
    var observedAt: Time := op.instant.GetOr(now);
    var d := DecideHoldRelease(ListeningOrderOf(c), c.numberStatus, c.numberCurrentOrder,
                               op.trigger, Finite(observedAt), ReleaseContextOf(c, config, observedAt));
    if d.Release? {
      ReleasedEndsHold(c, op.trigger, observedAt, ReleaseContextOf(c, config, observedAt));
      if ApplyHoldRelease(db, c, observedAt, d.nextNumber, d.numberChanged).Some? {
        ApplyHoldReleaseKeeps(db, c, observedAt, d);
      }
    }
  }

  lemma RunEffectKeeps(db: Db, key: RecordKey, op: Operation, ctx: Option<Context>, config: Config, now: Time)
    requires HoldInv(db) && AttemptOk(db, Prepared(key, op, ctx))
    ensures SettledOk(db, key, op, RunEffect(db, op, ctx, config, now))
  {
    if ctx.None? {
      ExtendsReflexive(db);
    } else if op.CompleteOrder? {
      CompleteEffectKeeps(db, key, op, ctx.value, config, now);
    } else {
      TerminalEffectKeeps(db, key, op, ctx.value, config, now);
    }
  }

  /** A record that answers an operation tells the truth about that operation. */
  lemma AnswerTrue(db: Db, key: RecordKey, record: Record, op: Operation)
    requires RecordOk(db, key, record)
    ensures OutcomeOk(db, op, Answer(record, op))
  {
  }

  /** Effect and record commit together. */
  lemma InsertKeeps(s: State, a: AttemptId, key: RecordKey, op: Operation, effect: Effect)
    requires Inv(s) && effect.Settled? && SettledOk(s.db, key, op, effect)
    ensures Preserves(s, State(effect.db, s.records[key := Record(Identity(op), effect.response)],
                               s.attempts[a := Finished(key, op, Executed(effect.response))]))
  {
    Rebase(s, effect.db);
  }

  lemma CommitKeeps(s: State, a: AttemptId, config: Option<Config>, now: Time)
    requires Inv(s) && a in s.attempts && s.attempts[a].Prepared?
    ensures Preserves(s, CommandStep(s, Commit(a, config, now)))
  {
    var Prepared(key, op, ctx) := s.attempts[a];
    assert AttemptOk(s.db, s.attempts[a]);
    PutKeeps(s, a, Finished(key, op, Outcome.Failed));
    PutKeeps(s, a, LostRace(key, op));
    if config.Some? {
      var effect := RunEffect(s.db, op, ctx, config.value, now);
      RunEffectKeeps(s.db, key, op, ctx, config.value, now);
      if effect.Settled? && key !in s.records {
        InsertKeeps(s, a, key, op, effect);
      }
    }
  }

  /** What a job selects keeps qualifying for as long as the attempt is in flight. */
  lemma SelectKeeps(s: State, step: Step)
    requires Inv(s) && (step.SelectExpired? || step.SelectExpiredListening?)
    ensures Preserves(s, CommandStep(s, step))
  {
    ExtendsReflexive(s.db);
    match step
    case SelectExpired(a, o, now) =>
      if o in s.db.orders && s.db.orders[o].expiresAt <= now && !s.db.orders[o].status.Created? {
        PutKeeps(s, a, Selected(TimeoutJobKey(o), TimeoutOrder(o, JOB_TIMEOUT_REASON, now)));
      }
    case SelectExpiredListening(a, o, now) =>
      if o in s.db.orders && s.db.orders[o].expiresAt < now && s.db.orders[o].status.Success? {
        PutKeeps(s, a, Selected(SweepJobKey(o), CompleteOrder(o, ExpirySweep, Some(now))));
      }
  }

  lemma AnswerKeeps(s: State, a: AttemptId, key: RecordKey, op: Operation)
    requires Inv(s) && key in s.records
    ensures Preserves(s, Advance(s, a, Finished(key, op, Answer(s.records[key], op))))
  {
    AnswerTrue(s.db, key, s.records[key], op);
    PutKeeps(s, a, Finished(key, op, Answer(s.records[key], op)));
  }

  lemma LookupKeeps(s: State, a: AttemptId)
    requires Inv(s) && a in s.attempts && s.attempts[a].Selected?
    ensures Preserves(s, CommandStep(s, Lookup(a)))
  {
    var Selected(key, op) := s.attempts[a];
    assert AttemptOk(s.db, s.attempts[a]);
    if key in s.records { AnswerKeeps(s, a, key, op); } else { PutKeeps(s, a, Executing(key, op)); }
  }

  lemma LoadKeeps(s: State, a: AttemptId)
    requires Inv(s) && a in s.attempts && s.attempts[a].Executing?
    ensures Preserves(s, CommandStep(s, Load(a)))
  {
    var Executing(key, op) := s.attempts[a];
    assert AttemptOk(s.db, s.attempts[a]);
    ReadContextOk(s.db, op.orderId);
    PutKeeps(s, a, Prepared(key, op, LoadContext(s.db, op.orderId)));
  }

  lemma ReplayKeeps(s: State, a: AttemptId)
    requires Inv(s) && a in s.attempts && s.attempts[a].LostRace?
    ensures Preserves(s, CommandStep(s, Replay(a)))
  {
    var LostRace(key, op) := s.attempts[a];
    if key in s.records { AnswerKeeps(s, a, key, op); } else { PutKeeps(s, a, Finished(key, op, Outcome.Failed)); }
  }

  lemma CommandStepKeeps(s: State, step: Step)
    requires Inv(s)
    ensures Preserves(s, CommandStep(s, step))
  {
    ExtendsReflexive(s.db);
    match step
    case Call(a, principal, key, op) => PutKeeps(s, a, Selected(CallerKey(ScopeOf(op), principal, key), op));
    case SelectExpired(_, _, _) => SelectKeeps(s, step);
    case SelectExpiredListening(_, _, _) => SelectKeeps(s, step);
    case Lookup(a) => if a in s.attempts && s.attempts[a].Selected? { LookupKeeps(s, a); }
    case Load(a) => if a in s.attempts && s.attempts[a].Executing? { LoadKeeps(s, a); }
    case Commit(a, config, now) => if a in s.attempts && s.attempts[a].Prepared? { CommitKeeps(s, a, config, now); }
    case Replay(a) => if a in s.attempts && s.attempts[a].LostRace? { ReplayKeeps(s, a); }
    case _ =>
  }

  // --- SMS -------------------------------------------------------------------

  lemma DeliverKeeps(db: Db, mode: MatchMode, receivedAt: Time, ctx: Option<Context>)
    requires HoldInv(db) && (ctx.Some? ==> ContextOk(db, ctx.value))
    ensures var after := Deliver(db, mode, receivedAt, ctx);
            after.Some? ==> HoldInv(after.value) && Extends(db, after.value)
  {
    if ctx.Some? && Deliver(db, mode, receivedAt, ctx).Some? {
      if mode.Repeat? {
        ApplyRepeatOtpKeeps(db, ctx.value);
      } else {
        ApplySuccessKeeps(db, ctx.value, Decide(ctx.value.orderStatus, ctx.value.numberStatus, ctx.value.otpReceived, Command.Succeed));
      }
    }
  }

  lemma DeliverOtpKeeps(s: State, a: AttemptId)
    requires Inv(s) && a in s.attempts && s.attempts[a].SmsLoaded?
    ensures Preserves(s, SmsStep(s, DeliverOtp(a)))
  {
    var SmsLoaded(_, mode, receivedAt, ctx) := s.attempts[a];
    assert AttemptOk(s.db, s.attempts[a]);
    DeliverKeeps(s.db, mode, receivedAt, ctx);
    WrittenKeeps(s, a, Deliver(s.db, mode, receivedAt, ctx));
  }

  lemma MatchIncomingKeeps(s: State, a: AttemptId, n: NumberId, receivedAt: Time, candidates: seq<OrderId>)
    requires Inv(s) && Enumerates(s.db, n, candidates)
    ensures Preserves(s, SmsStep(s, MatchIncoming(a, n, receivedAt, candidates)))
  {
    ExtendsReflexive(s.db);
    if MatchSms(s.db, n, receivedAt, candidates).Matched? {
      var Matched(o, mode) := MatchSms(s.db, n, receivedAt, candidates);
      assert o in EligibleIds(s.db, n, receivedAt, candidates);
      PutKeeps(s, a, SmsMatched(n, o, mode, receivedAt));
    }
  }

  lemma SmsStepKeeps(s: State, step: Step)
    requires Inv(s)
    ensures Preserves(s, SmsStep(s, step))
  {
    ExtendsReflexive(s.db);
    match step
    case MatchIncoming(a, n, receivedAt, candidates) =>
      if Enumerates(s.db, n, candidates) { MatchIncomingKeeps(s, a, n, receivedAt, candidates); }
    case LoadMatched(a) =>
      if a in s.attempts && s.attempts[a].SmsMatched? {
        var SmsMatched(n, o, mode, receivedAt) := s.attempts[a];
        ReadContextOk(s.db, o);
        PutKeeps(s, a, SmsLoaded(n, mode, receivedAt, LoadContext(s.db, o)));
      }
    case DeliverOtp(a) =>
      if a in s.attempts && s.attempts[a].SmsLoaded? { DeliverOtpKeeps(s, a); }
    case _ =>
  }

  // --- reservation recovery --------------------------------------------------

  /** The recovery job acts on every reservation it locked: it never reaches the branch that leaves one alone. */
  lemma RecoveryNeverLeavesIt(db: Db, c: Context, hasActiveOffer: bool, heartbeatTimeoutSeconds: nat, now: Time)
    requires ContextOk(db, c) && c.orderStatus.Reserved?
    ensures RecoverOne(db, c, hasActiveOffer, heartbeatTimeoutSeconds, now).Acted?
  {
    var command := Command.Cancel(RELEASE_REASON, Finite(now), Finite(now), Finite(0),
                                  ReleaseContextOf(c, Config(heartbeatTimeoutSeconds, 0), now));
    AppliedExactlyWhenLegal(OrderStatus.Reserved, c.numberStatus, false, command);
  }

  lemma RecoverOneKeeps(db: Db, c: Context, hasActiveOffer: bool, heartbeatTimeoutSeconds: nat, now: Time)
    requires HoldInv(db) && ContextOk(db, c) && c.orderStatus.Reserved?
    ensures var r := RecoverOne(db, c, hasActiveOffer, heartbeatTimeoutSeconds, now);
            r.Acted? && r.db.Some? ==> HoldInv(r.db.value) && Extends(db, r.db.value)
  {
    if IsPromotable(c, hasActiveOffer, heartbeatTimeoutSeconds, now) {
      if Promote(db, c.orderId, c.version, c.numberId, now).Some? {
        PromoteKeeps(db, c.orderId, c.version, c.numberId, now);
      }
    } else {
      var command := Command.Cancel(RELEASE_REASON, Finite(now), Finite(now), Finite(0),
                                    ReleaseContextOf(c, Config(heartbeatTimeoutSeconds, 0), now));
      var d := RecoveryRelease(c, heartbeatTimeoutSeconds, now);
      if d.Apply? && ApplyTerminal(db, c, d).Some? {
        AppliedEndsOrder(c, command);
        ApplyTerminalKeeps(db, c, d);
      }
    }
  }

  lemma RecoveryStepKeeps(s: State, step: Step)
    requires Inv(s)
    ensures Preserves(s, RecoveryStep(s, step))
  {
    ExtendsReflexive(s.db);
    match step
    case LockStuck(a, o, hasActiveOffer) =>
      if Joined(s.db, o) && s.db.orders[o].status.Reserved? {
        ReadContextOk(s.db, o);
        PutKeeps(s, a, Recovering(LoadContext(s.db, o).value, hasActiveOffer));
      }
    case Recover(a, heartbeatTimeoutSeconds, now) =>
      if a in s.attempts && s.attempts[a].Recovering? {
        var Recovering(c, hasActiveOffer) := s.attempts[a];
        assert AttemptOk(s.db, s.attempts[a]);
        var r := RecoverOne(s.db, c, hasActiveOffer, heartbeatTimeoutSeconds, now);
        RecoverOneKeeps(s.db, c, hasActiveOffer, heartbeatTimeoutSeconds, now);
        RetireKeeps(s, a);
        if r.Acted? { WrittenKeeps(s, a, r.db); }
      }
    case _ =>
  }

  // ---------------------------------------------------------------------------
  // Every run
  // ---------------------------------------------------------------------------

  lemma NextKeeps(s: State, step: Step)
    requires Inv(s)
    ensures Preserves(s, Next(s, step))
  {
    InventoryStepKeeps(s, step);
    OrderStepKeeps(s, step);
    CommandStepKeeps(s, step);
    SmsStepKeeps(s, step);
    RecoveryStepKeeps(s, step);
    if step.Crash? { RetireKeeps(s, step.a); }
  }

  /** Every interleaving of every worker keeps the hold invariant, and only ever moves orders forward. */
  lemma {:induction false} RunKeeps(s: State, steps: seq<Step>)
    requires Inv(s)
    ensures Preserves(s, Exec(s, steps))
    decreases |steps|
  {
    if steps == [] {
      ExtendsReflexive(s.db);
    } else {
      NextKeeps(s, steps[0]);
      RunKeeps(Next(s, steps[0]), steps[1..]);
      ExtendsTransitive(s.db, Next(s, steps[0]).db, Exec(s, steps).db);
    }
  }

  lemma EveryRunKeepsHolds(steps: seq<Step>)
    ensures Inv(Exec(Init(), steps))
  {
    RunKeeps(Init(), steps);
  }
}
