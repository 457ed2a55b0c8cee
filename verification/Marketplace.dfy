/** The rows every worker shares, and the atomic actions workers take on them.

    A worker never sees the rows change under it inside one action, but any number of
    actions of other workers may fall between two actions of one attempt: what an attempt
    has read may be stale by the time it writes. Writes are therefore compare-and-set, and
    a write that does not match rolls its whole transaction back. */
module Marketplace {
  import opened Prelude
  import opened OrderStateMachine
  import opened ListeningWindow

  type OrderId = nat
  type NumberId = nat
  type DeviceId = nat
  type AttemptId = nat

  // ---------------------------------------------------------------------------
  // Rows
  // ---------------------------------------------------------------------------

  datatype Order = Order(
    numberId: NumberId, version: nat, status: OrderStatus, otpReceived: bool,
    createdAt: Time, windowStartsAt: Time, expiresAt: Time, completedAt: Option<Time>)

  datatype PhoneNumber = PhoneNumber(
    deviceId: DeviceId, status: NumberStatus, enabled: bool, currentOrder: Option<OrderId>)

  datatype Device = Device(status: DeviceStatus, lastSeenAt: Option<Time>)

  datatype Db = Db(
    orders: map<OrderId, Order>, numbers: map<NumberId, PhoneNumber>, devices: map<DeviceId, Device>)

  datatype Config = Config(heartbeatTimeoutSeconds: nat, cancelMinimumSeconds: nat)

  // ---------------------------------------------------------------------------
  // Reading an order together with its number and device
  // ---------------------------------------------------------------------------

  datatype Context = Context(
    orderId: OrderId, numberId: NumberId, version: nat, orderStatus: OrderStatus, numberStatus: NumberStatus,
    otpReceived: bool, createdAt: Time, expiresAt: Time, numberEnabled: bool,
    deviceStatus: DeviceStatus, deviceLastSeenAt: Option<Time>,
    completedAt: Option<Time>, numberCurrentOrder: Option<OrderId>)

  predicate Joined(db: Db, o: OrderId) {
    && o in db.orders
    && db.orders[o].numberId in db.numbers
    && db.numbers[db.orders[o].numberId].deviceId in db.devices
  }

  function LoadContext(db: Db, o: OrderId): Option<Context> {
    if !Joined(db, o) then None
    else
      var order := db.orders[o];
      var number := db.numbers[order.numberId];
      var device := db.devices[number.deviceId];
      Some(Context(o, order.numberId, order.version, order.status, number.status, order.otpReceived,
                   order.createdAt, order.expiresAt, number.enabled, device.status, device.lastSeenAt,
                   order.completedAt, number.currentOrder))
  }

  function MsOf(t: Option<Time>): Option<Ms> {
    match t
    case None => None
    case Some(v) => Some(Finite(v))
  }

  function ReleaseContextOf(ctx: Context, config: Config, observedAt: Time): ReleaseContext {
    ReleaseContext(ctx.numberEnabled, ctx.deviceStatus, MsOf(ctx.deviceLastSeenAt),
                   Finite(observedAt), Finite(config.heartbeatTimeoutSeconds * 1000))
  }

  // ---------------------------------------------------------------------------
  // Compare-and-set writes; `None` is a write that matched no row
  // ---------------------------------------------------------------------------

  /** Release a number from the order it is bound to. */
  function ReleaseNumber(db: Db, n: NumberId, o: OrderId, from: NumberStatus, to: NumberStatus): Option<Db> {
    if n in db.numbers && db.numbers[n].status == from && db.numbers[n].currentOrder == Some(o)
    then Some(db.(numbers := db.numbers[n := db.numbers[n].(status := to, currentOrder := None)]))
    else None
  }

  function ApplyTerminal(db: Db, ctx: Context, d: Decision): Option<Db>
    requires d.Apply?
  {
    if ctx.orderId !in db.orders then None
    else
      var order := db.orders[ctx.orderId];
      if order.version != ctx.version || order.status != d.expectedOrder then None
      else
        var settled := db.(orders := db.orders[ctx.orderId := order.(status := d.nextOrder, version := order.version + 1)]);
        if d.nextNumber == ctx.numberStatus then Some(settled)
        else ReleaseNumber(settled, ctx.numberId, ctx.orderId, ctx.numberStatus, d.nextNumber)
  }

  function ApplyHoldRelease(db: Db, ctx: Context, completedAt: Time, next: NumberStatus, numberChanged: bool): Option<Db> {
    if ctx.orderId !in db.orders then None
    else
      var order := db.orders[ctx.orderId];
      if order.version != ctx.version || !order.status.Success? || order.completedAt.Some? then None
      else
        var stamped := db.(orders := db.orders[ctx.orderId := order.(completedAt := Some(completedAt), version := order.version + 1)]);
        if !numberChanged then Some(stamped)
        else ReleaseNumber(stamped, ctx.numberId, ctx.orderId, ctx.numberStatus, next)
  }

  /** Activation: order `reserved` to `waiting_sms` together with number `reserved` to `busy`. */
  function Promote(db: Db, o: OrderId, version: nat, n: NumberId, now: Time): Option<Db> {
    if || o !in db.orders || db.orders[o].version != version || !db.orders[o].status.Reserved?
       || n !in db.numbers || !db.numbers[n].status.Reserved? || db.numbers[n].currentOrder != Some(o)
    then None
    else Some(db.(
      orders := db.orders[o := db.orders[o].(status := WaitingSms, version := version + 1, windowStartsAt := now)],
      numbers := db.numbers[n := db.numbers[n].(status := Busy)]))
  }

  /** Bind an available number to a created order. */
  function ReserveNumber(db: Db, o: OrderId, n: NumberId): Option<Db> {
    if || o !in db.orders || !db.orders[o].status.Created? || db.orders[o].numberId != n
       || n !in db.numbers || !db.numbers[n].enabled || db.numbers[n].currentOrder.Some?
    then None
    else
      var d := Decide(db.orders[o].status, db.numbers[n].status, false, Command.Reserve);
      if !d.Apply? then None
      else Some(db.(
        orders := db.orders[o := db.orders[o].(status := d.nextOrder, version := db.orders[o].version + 1)],
        numbers := db.numbers[n := db.numbers[n].(status := d.nextNumber, currentOrder := Some(o))]))
  }

  function ApplySuccess(db: Db, ctx: Context, d: Decision): Option<Db>
    requires d.Apply?
  {
    if ctx.orderId !in db.orders then None
    else
      var order := db.orders[ctx.orderId];
      if order.version != ctx.version || !order.status.WaitingSms? || order.otpReceived then None
      else
        var settled := db.(orders := db.orders[ctx.orderId := order.(status := Success, otpReceived := true, version := order.version + 1)]);
        if d.nextNumber == ctx.numberStatus then Some(settled)
        else ReleaseNumber(settled, ctx.numberId, ctx.orderId, ctx.numberStatus, d.nextNumber)
  }

  function ApplyRepeatOtp(db: Db, ctx: Context): Option<Db> {
    if ctx.orderId !in db.orders then None
    else
      var order := db.orders[ctx.orderId];
      if order.version != ctx.version || !order.status.Success? || order.completedAt.Some? then None
      else Some(db.(orders := db.orders[ctx.orderId := order.(otpReceived := true, version := order.version + 1)]))
  }

  /** An availability write; `enabled` is `None` for the writers that leave that column alone. */
  function WriteNumberStatus(db: Db, n: NumberId, from: NumberStatus, to: NumberStatus, enabled: Option<bool>): Option<Db> {
    if n !in db.numbers || db.numbers[n].status != from then None
    else
      var number := db.numbers[n];
      Some(db.(numbers := db.numbers[n := number.(status := to, enabled := enabled.GetOr(number.enabled))]))
  }

  // ---------------------------------------------------------------------------
  // Idempotent order commands
  // ---------------------------------------------------------------------------

  datatype Operation =
    | CancelOrder(orderId: OrderId, reason: string, actor: string)
    | TimeoutOrder(orderId: OrderId, reason: string, observedAt: Time)
    | FailOrder(orderId: OrderId, reason: string, actor: string)
    | CompleteOrder(orderId: OrderId, trigger: Trigger, instant: Option<Time>)

  /** What the request hash binds: the observed instant is deliberately not part of it. */
  function Identity(op: Operation): Operation {
    match op
    case TimeoutOrder(_, _, _) => op.(observedAt := 0)
    case CompleteOrder(_, _, _) => op.(instant := None)
    case _ => op
  }

  datatype Scope = CancelScope | TimeoutScope | FailScope | CompleteScope

  function ScopeOf(op: Operation): Scope {
    match op
    case CancelOrder(_, _, _) => CancelScope
    case TimeoutOrder(_, _, _) => TimeoutScope
    case FailOrder(_, _, _) => FailScope
    case CompleteOrder(_, _, _) => CompleteScope
  }

  /** The unique key of an idempotency record. The two jobs act under their own principals and mint
      one constant key per order; every other caller brings its own key. */
  datatype RecordKey =
    | CallerKey(scope: Scope, principal: string, key: string)
    | TimeoutJobKey(orderId: OrderId)
    | SweepJobKey(orderId: OrderId)

  const JOB_TIMEOUT_REASON := "ORDER_TIMEOUT"

  datatype ErrorCode = NotFoundError | CancelNotAllowedError | TerminalStateConflictError | StateConflictError

  datatype Response =
    | TerminalOk(orderId: OrderId, status: OrderStatus, reason: string, disposition: Option<NumberStatus>)
    | CompleteOk(orderId: OrderId, completedAt: Time, disposition: Option<NumberStatus>)
    | Refused(code: ErrorCode)

  function CodeOf(code: RejectCode): ErrorCode {
    match code
    case StateConflict => StateConflictError
    case TerminalStateConflict => TerminalStateConflictError
    case CancelNotAllowed => CancelNotAllowedError
  }

  function CommandOf(op: Operation, ctx: Context, config: Config, now: Time): Command
    requires !op.CompleteOrder?
  {
    match op
    case CancelOrder(_, reason, _) =>
      Command.Cancel(reason, Finite(ctx.createdAt), Finite(now),
                     Finite(if reason == MAIN_COMPENSATION then 0 else config.cancelMinimumSeconds * 1000),
                     ReleaseContextOf(ctx, config, now))
    case TimeoutOrder(_, _, observedAt) =>
      Command.Timeout(Finite(ctx.expiresAt), Finite(observedAt), ReleaseContextOf(ctx, config, observedAt))
    case FailOrder(_, _, _) => Command.Fail(ReleaseContextOf(ctx, config, now))
  }

  /** Either a definitive response with the rows it leaves, or a throw that rolls everything back. */
  datatype Effect = Settled(db: Db, response: Response) | Threw

  function TerminalEffect(db: Db, op: Operation, ctx: Option<Context>, config: Config, now: Time): Effect
    requires !op.CompleteOrder?
  {
    if ctx.None? then Settled(db, Refused(NotFoundError))
    else
      var c := ctx.value;
      var d := Decide(c.orderStatus, c.numberStatus, c.otpReceived, CommandOf(op, c, config, now));
      match d
      case NoChange(target, _, disposition) => Settled(db, TerminalOk(c.orderId, target, op.reason, disposition))
      case Reject(code, _) => Settled(db, Refused(CodeOf(code)))
      case Apply(_, _, next, _, disposition) =>
        match ApplyTerminal(db, c, d)
        case None => Threw
        case Some(db') => Settled(db', TerminalOk(c.orderId, next, op.reason, disposition))
  }

  function ListeningOrderOf(ctx: Context): ListeningOrder {
    ListeningOrder(ctx.orderId, ctx.orderStatus, MsOf(ctx.completedAt), Finite(ctx.expiresAt))
  }

  function CompleteEffect(db: Db, op: Operation, ctx: Option<Context>, config: Config, now: Time): Effect
    requires op.CompleteOrder?
  {
    if ctx.None? then Settled(db, Refused(NotFoundError))
    else
      var c := ctx.value;
      var observedAt: Time := op.instant.GetOr(now);
      var d := DecideHoldRelease(ListeningOrderOf(c), c.numberStatus, c.numberCurrentOrder,
                                 op.trigger, Finite(observedAt), ReleaseContextOf(c, config, observedAt));
      match d
      case AlreadyCompleted => Settled(db, CompleteOk(c.orderId, c.completedAt.GetOr(observedAt), None))
      case Refuse(_) => Settled(db, Refused(StateConflictError))
      case Release(_, next, numberChanged, disposition) =>
        match ApplyHoldRelease(db, c, observedAt, next, numberChanged)
        case None => Threw
        case Some(db') => Settled(db', CompleteOk(c.orderId, observedAt, disposition))
  }

  function RunEffect(db: Db, op: Operation, ctx: Option<Context>, config: Config, now: Time): Effect {
    if op.CompleteOrder? then CompleteEffect(db, op, ctx, config, now)
    else TerminalEffect(db, op, ctx, config, now)
  }

  // ---------------------------------------------------------------------------
  // Attempts in flight
  // ---------------------------------------------------------------------------

  datatype Record = Record(identity: Operation, response: Response)

  datatype MatchMode = First | Repeat

  datatype Outcome = Executed(response: Response) | Replayed(response: Response) | Conflict | Failed

  datatype Attempt =
    | Selected(key: RecordKey, op: Operation)
    | Executing(key: RecordKey, op: Operation)
    | Prepared(key: RecordKey, op: Operation, ctx: Option<Context>)
    | LostRace(key: RecordKey, op: Operation)
    | Finished(key: RecordKey, op: Operation, outcome: Outcome)
    | SmsMatched(numberId: NumberId, orderId: OrderId, mode: MatchMode, receivedAt: Time)
    | SmsLoaded(numberId: NumberId, mode: MatchMode, receivedAt: Time, ctx: Option<Context>)
    | Recovering(stuck: Context, hasActiveOffer: bool)
    | StatusWrite(numberId: NumberId, from: NumberStatus, to: NumberStatus, enabled: Option<bool>)
    | MoveWrite(numberId: NumberId, from: NumberStatus, deviceId: DeviceId)
    | DeleteWrite(numberId: NumberId)

  datatype State = State(db: Db, records: map<RecordKey, Record>, attempts: map<AttemptId, Attempt>)

  function Init(): State { State(Db(map[], map[], map[]), map[], map[]) }

  // ---------------------------------------------------------------------------
  // SMS matching
  // ---------------------------------------------------------------------------

  /** The rows loaded as candidates for an SMS on a number. */
  predicate CandidateRow(db: Db, n: NumberId, o: OrderId) {
    && o in db.orders && db.orders[o].numberId == n
    && (db.orders[o].status.WaitingSms? || (db.orders[o].status.Success? && db.orders[o].completedAt.None?))
  }

  predicate Eligible(order: Order, n: NumberId, receivedAt: Time) {
    && order.numberId == n
    && (order.status.WaitingSms? || (order.status.Success? && order.completedAt.None?))
    && order.windowStartsAt <= order.expiresAt
    && order.windowStartsAt <= receivedAt <= order.expiresAt
  }

  datatype SmsMatch =
    | Matched(orderId: OrderId, mode: MatchMode)
    | Unmatched
    | Ambiguous(candidates: seq<OrderId>)

  function EligibleIds(db: Db, n: NumberId, receivedAt: Time, ids: seq<OrderId>): (r: seq<OrderId>)
    requires forall o <- ids :: o in db.orders
    ensures forall o :: o in r <==> o in ids && Eligible(db.orders[o], n, receivedAt)
  {
    if ids == [] then []
    else (if Eligible(db.orders[ids[0]], n, receivedAt) then [ids[0]] else []) + EligibleIds(db, n, receivedAt, ids[1..])
  }

  /** `matchSmsToActiveOrder` over the rows `ids`. */
  function MatchSms(db: Db, n: NumberId, receivedAt: Time, ids: seq<OrderId>): SmsMatch
    requires forall o <- ids :: o in db.orders
  {
    var matches := EligibleIds(db, n, receivedAt, ids);
    if |matches| == 0 then Unmatched
    else if |matches| > 1 then Ambiguous(matches)
    else Matched(matches[0], if db.orders[matches[0]].status.Success? then Repeat else First)
  }

  // ---------------------------------------------------------------------------
  // Availability decisions
  // ---------------------------------------------------------------------------

  /** Liveness as inventory sees it: a heartbeat later than `now` counts as live. */
  predicate IsDeviceLive(device: Device, now: Time, timeoutSeconds: nat) {
    device.status.Online? && device.lastSeenAt.Some? && now - device.lastSeenAt.value <= timeoutSeconds * 1000
  }

  function ReconcileAvailability(
    status: NumberStatus, enabled: bool, hasActiveOrder: bool, hasActiveOffer: bool,
    device: Device, now: Time, timeoutSeconds: nat): NumberStatus
  {
    if !enabled || status.Disabled? then NumberStatus.Disabled
    else if status.Reserved? || status.Busy? then status
    else if !IsDeviceLive(device, now, timeoutSeconds) then NumberStatus.Offline
    else if hasActiveOffer && !hasActiveOrder then Available else NumberStatus.Offline
  }

  datatype Availability = RequestDisabled | RequestOffline | RequestAvailable

  /** What a device's availability request writes, or `None` when the number is held. */
  function AvailabilityTarget(number: PhoneNumber, device: Device, requested: Availability,
                              hasActiveOffer: bool, now: Time, timeoutSeconds: nat): Option<(NumberStatus, bool)> {
    if number.status.Reserved? || number.status.Busy? then None
    else if requested.RequestDisabled? then Some((NumberStatus.Disabled, false))
    else if requested.RequestOffline? then Some((NumberStatus.Offline, true))
    else
      var base := if number.status.Disabled? then NumberStatus.Offline else number.status;
      Some((ReconcileAvailability(base, true, number.currentOrder.Some?, hasActiveOffer, device, now, timeoutSeconds), true))
  }

  // ---------------------------------------------------------------------------
  // Actions
  // ---------------------------------------------------------------------------

  datatype Step =
    // inventory
    | WriteDevice(d: DeviceId, device: Device)
    | RegisterNumber(n: NumberId, d: DeviceId)
    | ReadForHeartbeat(a: AttemptId, n: NumberId, hasActiveOffer: bool, now: Time, timeoutSeconds: nat)
    | ReadForAvailability(a: AttemptId, n: NumberId, requested: Availability, hasActiveOffer: bool, now: Time, timeoutSeconds: nat)
    | ReadForDisable(a: AttemptId, n: NumberId)
    | ReadForReEnable(a: AttemptId, n: NumberId)
    | ReadForMove(a: AttemptId, n: NumberId, d: DeviceId)
    | ReadForDelete(a: AttemptId, n: NumberId)
    | WriteNumber(a: AttemptId)
    | SweepOffline(n: NumberId)
    | AdminDisable(n: NumberId)
    // orders
    | CreateOrder(o: OrderId, n: NumberId, createdAt: Time, expiresAt: Time)
    | Reserve(o: OrderId)
    | Activate(o: OrderId, now: Time)
    | RedactOtp(o: OrderId)
    // idempotent commands
    | Call(a: AttemptId, principal: string, key: string, op: Operation)
    | SelectExpired(a: AttemptId, o: OrderId, now: Time)
    | SelectExpiredListening(a: AttemptId, o: OrderId, now: Time)
    | Lookup(a: AttemptId)
    | Load(a: AttemptId)
    | Commit(a: AttemptId, config: Option<Config>, now: Time)
    | Replay(a: AttemptId)
    // SMS
    | MatchIncoming(a: AttemptId, n: NumberId, receivedAt: Time, candidates: seq<OrderId>)
    | LoadMatched(a: AttemptId)
    | DeliverOtp(a: AttemptId)
    // reservation recovery
    | LockStuck(a: AttemptId, o: OrderId, hasActiveOffer: bool)
    | Recover(a: AttemptId, heartbeatTimeoutSeconds: nat, now: Time)
    // a worker dies and its transaction rolls back
    | Crash(a: AttemptId)

  function Put(s: State, a: AttemptId, attempt: Attempt): State {
    if a in s.attempts then s else s.(attempts := s.attempts[a := attempt])
  }

  function Advance(s: State, a: AttemptId, attempt: Attempt): State {
    s.(attempts := s.attempts[a := attempt])
  }

  function Retire(s: State, a: AttemptId): State {
    s.(attempts := s.attempts - {a})
  }

  function Written(s: State, a: AttemptId, db: Option<Db>): State {
    if db.None? then Retire(s, a) else Retire(s, a).(db := db.value)
  }

  function InventoryStep(s: State, step: Step): State {
    match step
    case WriteDevice(d, device) => s.(db := s.db.(devices := s.db.devices[d := device]))
    case RegisterNumber(n, d) =>
      if n in s.db.numbers || d !in s.db.devices then s
      else s.(db := s.db.(numbers := s.db.numbers[n := PhoneNumber(d, NumberStatus.Offline, true, None)]))
    case ReadForHeartbeat(a, n, hasActiveOffer, now, timeoutSeconds) =>
      if n !in s.db.numbers || s.db.numbers[n].deviceId !in s.db.devices
         || !(s.db.numbers[n].status.Offline? || s.db.numbers[n].status.Available?) then s
      else
        var number := s.db.numbers[n];
        var target := ReconcileAvailability(number.status, number.enabled, number.currentOrder.Some?, hasActiveOffer,
                                            s.db.devices[number.deviceId], now, timeoutSeconds);
        if target == number.status then s else Put(s, a, StatusWrite(n, number.status, target, None))
    case ReadForAvailability(a, n, requested, hasActiveOffer, now, timeoutSeconds) =>
      if n !in s.db.numbers || s.db.numbers[n].deviceId !in s.db.devices then s
      else
        var number := s.db.numbers[n];
        var target := AvailabilityTarget(number, s.db.devices[number.deviceId], requested, hasActiveOffer, now, timeoutSeconds);
        if target.None? then s else Put(s, a, StatusWrite(n, number.status, target.value.0, Some(target.value.1)))
    case ReadForDisable(a, n) =>
      if n !in s.db.numbers || !Idle(s.db.numbers[n].status) then s
      else Put(s, a, StatusWrite(n, s.db.numbers[n].status, NumberStatus.Disabled, Some(false)))
    case ReadForReEnable(a, n) =>
      if n !in s.db.numbers || !s.db.numbers[n].status.Disabled? then s
      else Put(s, a, StatusWrite(n, NumberStatus.Disabled, NumberStatus.Offline, Some(true)))
    case ReadForMove(a, n, d) =>
      if n !in s.db.numbers || !Idle(s.db.numbers[n].status) || d !in s.db.devices then s
      else Put(s, a, MoveWrite(n, s.db.numbers[n].status, d))
    case ReadForDelete(a, n) =>
      if n !in s.db.numbers || !Idle(s.db.numbers[n].status) then s
      else Put(s, a, DeleteWrite(n))
    case WriteNumber(a) =>
      if a !in s.attempts then s
      else (
        match s.attempts[a]
        case StatusWrite(n, from, to, enabled) => Written(s, a, WriteNumberStatus(s.db, n, from, to, enabled))
        case MoveWrite(n, from, d) =>
          if n !in s.db.numbers || s.db.numbers[n].status != from || d !in s.db.devices then Retire(s, a)
          else Retire(s, a).(db := s.db.(numbers := s.db.numbers[n := s.db.numbers[n].(deviceId := d)]))
        case DeleteWrite(n) =>
          // No expected status, but orders keep a restricting foreign key to their number.
          if n !in s.db.numbers || (exists o <- s.db.orders :: s.db.orders[o].numberId == n) then Retire(s, a)
          else Retire(s, a).(db := s.db.(numbers := s.db.numbers - {n}))
        case _ => s)
    case SweepOffline(n) =>
      var db := WriteNumberStatus(s.db, n, Available, NumberStatus.Offline, None);
      if db.None? then s else s.(db := db.value)
    case AdminDisable(n) =>
      // Read and written in one action here; module UnguardedDisable takes the two apart.
      if n !in s.db.numbers || !Idle(s.db.numbers[n].status) then s
      else s.(db := s.db.(numbers := s.db.numbers[n := s.db.numbers[n].(status := NumberStatus.Disabled, enabled := false)]))
    case _ => s
  }

  function OrderStep(s: State, step: Step): State {
    match step
    case CreateOrder(o, n, createdAt, expiresAt) =>
      if o in s.db.orders || n !in s.db.numbers then s
      else s.(db := s.db.(orders := s.db.orders[o := Order(n, 0, Created, false, createdAt, createdAt, expiresAt, None)]))
    case Reserve(o) =>
      if o !in s.db.orders then s
      else
        var db := ReserveNumber(s.db, o, s.db.orders[o].numberId);
        if db.None? then s else s.(db := db.value)
    case Activate(o, now) =>
      if o !in s.db.orders then s
      else
        var db := Promote(s.db, o, s.db.orders[o].version, s.db.orders[o].numberId, now);
        if db.None? then s else s.(db := db.value)
    case RedactOtp(o) =>
      if o !in s.db.orders || !IsTerminal(s.db.orders[o].status) then s
      else s.(db := s.db.(orders := s.db.orders[o := s.db.orders[o].(otpReceived := false)]))
    case _ => s
  }

  /** `decideIdempotency` over the record found for a key. */
  function Answer(record: Record, op: Operation): Outcome {
    if record.identity == Identity(op) then Replayed(record.response) else Conflict
  }

  function CommandStep(s: State, step: Step): State {
    match step
    case Call(a, principal, key, op) => Put(s, a, Selected(CallerKey(ScopeOf(op), principal, key), op))
    case SelectExpired(a, o, now) =>
      if o in s.db.orders && (s.db.orders[o].status.Reserved? || s.db.orders[o].status.WaitingSms?)
         && s.db.orders[o].expiresAt <= now && !s.db.orders[o].otpReceived
      then Put(s, a, Selected(TimeoutJobKey(o), TimeoutOrder(o, JOB_TIMEOUT_REASON, now)))
      else s
    case SelectExpiredListening(a, o, now) =>
      if o in s.db.orders && s.db.orders[o].status.Success? && s.db.orders[o].completedAt.None? && s.db.orders[o].expiresAt < now
      then Put(s, a, Selected(SweepJobKey(o), CompleteOrder(o, ExpirySweep, Some(now))))
      else s
    case Lookup(a) =>
      if a !in s.attempts || !s.attempts[a].Selected? then s
      else
        var Selected(key, op) := s.attempts[a];
        if key in s.records then Advance(s, a, Finished(key, op, Answer(s.records[key], op)))
        else Advance(s, a, Executing(key, op))
    case Load(a) =>
      if a !in s.attempts || !s.attempts[a].Executing? then s
      else
        var Executing(key, op) := s.attempts[a];
        Advance(s, a, Prepared(key, op, LoadContext(s.db, op.orderId)))
    case Commit(a, config, now) =>
      if a !in s.attempts || !s.attempts[a].Prepared? then s
      else
        var Prepared(key, op, ctx) := s.attempts[a];
        if config.None? then Advance(s, a, Finished(key, op, Outcome.Failed))
        else (
          match RunEffect(s.db, op, ctx, config.value, now)
          case Threw => Advance(s, a, Finished(key, op, Outcome.Failed))
          case Settled(db, response) =>
            // The record's unique key is taken: the effect rolls back with the insert.
            if key in s.records then Advance(s, a, LostRace(key, op))
            else State(db, s.records[key := Record(Identity(op), response)],
                       s.attempts[a := Finished(key, op, Executed(response))]))
    case Replay(a) =>
      if a !in s.attempts || !s.attempts[a].LostRace? then s
      else
        var LostRace(key, op) := s.attempts[a];
        if key in s.records then Advance(s, a, Finished(key, op, Answer(s.records[key], op)))
        else Advance(s, a, Finished(key, op, Outcome.Failed))
    case _ => s
  }

  predicate Enumerates(db: Db, n: NumberId, ids: seq<OrderId>) {
    && (forall i, j :: 0 <= i < j < |ids| ==> ids[i] != ids[j])
    && (forall o <- ids :: CandidateRow(db, n, o))
    && (forall o <- db.orders :: CandidateRow(db, n, o) ==> o in ids)
  }

  /** The write of a matched OTP; `None` when what was loaded no longer qualifies, or the row has moved on. */
  function Deliver(db: Db, mode: MatchMode, receivedAt: Time, ctx: Option<Context>): Option<Db> {
    if ctx.None? then None
    else if mode.Repeat? then
      if IsListeningOrder(ListeningOrderOf(ctx.value), Finite(receivedAt)) then ApplyRepeatOtp(db, ctx.value) else None
    else if !ctx.value.orderStatus.WaitingSms? then None
    else
      var d := Decide(ctx.value.orderStatus, ctx.value.numberStatus, ctx.value.otpReceived, Command.Succeed);
      if d.Apply? then ApplySuccess(db, ctx.value, d) else None
  }

  function SmsStep(s: State, step: Step): State {
    match step
    case MatchIncoming(a, n, receivedAt, candidates) =>
      if !Enumerates(s.db, n, candidates) then s
      else (
        match MatchSms(s.db, n, receivedAt, candidates)
        case Matched(o, mode) => Put(s, a, SmsMatched(n, o, mode, receivedAt))
        case _ => s)
    case LoadMatched(a) =>
      if a !in s.attempts || !s.attempts[a].SmsMatched? then s
      else
        var SmsMatched(n, o, mode, receivedAt) := s.attempts[a];
        Advance(s, a, SmsLoaded(n, mode, receivedAt, LoadContext(s.db, o)))
    case DeliverOtp(a) =>
      if a !in s.attempts || !s.attempts[a].SmsLoaded? then s
      else
        var SmsLoaded(_, mode, receivedAt, ctx) := s.attempts[a];
        Written(s, a, Deliver(s.db, mode, receivedAt, ctx))
    case _ => s
  }

  predicate IsPromotable(ctx: Context, hasActiveOffer: bool, heartbeatTimeoutSeconds: nat, now: Time) {
    && ctx.numberStatus.Reserved? && ctx.numberCurrentOrder == Some(ctx.orderId)
    && ctx.numberEnabled && hasActiveOffer
    && DecideNumberRelease(ReleaseContext(true, ctx.deviceStatus, MsOf(ctx.deviceLastSeenAt),
                                          Finite(now), Finite(heartbeatTimeoutSeconds * 1000))).Available?
  }

  const RELEASE_REASON := "reservation_recovery_release"

  function RecoveryRelease(ctx: Context, heartbeatTimeoutSeconds: nat, now: Time): Decision {
    Decide(OrderStatus.Reserved, ctx.numberStatus, false,
           Command.Cancel(RELEASE_REASON, Finite(now), Finite(now), Finite(0),
                          ReleaseContextOf(ctx, Config(heartbeatTimeoutSeconds, 0), now)))
  }

  /** What recovery does to one stuck reservation. `LeaveIt` is the branch that acts on nothing. */
  datatype Recovery = Acted(db: Option<Db>) | LeaveIt

  function RecoverOne(db: Db, ctx: Context, hasActiveOffer: bool, heartbeatTimeoutSeconds: nat, now: Time): Recovery {
    if IsPromotable(ctx, hasActiveOffer, heartbeatTimeoutSeconds, now) then
      var d := Decide(OrderStatus.Reserved, NumberStatus.Reserved, false, Command.Activate);
      if !d.Apply? || !d.nextOrder.WaitingSms? || !d.nextNumber.Busy? then LeaveIt
      else Acted(Promote(db, ctx.orderId, ctx.version, ctx.numberId, now))
    else
      var d := RecoveryRelease(ctx, heartbeatTimeoutSeconds, now);
      if !d.Apply? then LeaveIt else Acted(ApplyTerminal(db, ctx, d))
  }

  function RecoveryStep(s: State, step: Step): State {
    match step
    case LockStuck(a, o, hasActiveOffer) =>
      if !Joined(s.db, o) || !s.db.orders[o].status.Reserved? then s
      else Put(s, a, Recovering(LoadContext(s.db, o).value, hasActiveOffer))
    case Recover(a, heartbeatTimeoutSeconds, now) =>
      if a !in s.attempts || !s.attempts[a].Recovering? then s
      else
        var Recovering(ctx, hasActiveOffer) := s.attempts[a];
        (match RecoverOne(s.db, ctx, hasActiveOffer, heartbeatTimeoutSeconds, now)
         case LeaveIt => Retire(s, a)
         case Acted(db) => Written(s, a, db))
    case _ => s
  }

  /** One atomic action of some worker. An action that is not enabled leaves everything as it is. */
  function Next(s: State, step: Step): State {
    match step
    case WriteDevice(_, _) => InventoryStep(s, step)
    case RegisterNumber(_, _) => InventoryStep(s, step)
    case ReadForHeartbeat(_, _, _, _, _) => InventoryStep(s, step)
    case ReadForAvailability(_, _, _, _, _, _) => InventoryStep(s, step)
    case ReadForDisable(_, _) => InventoryStep(s, step)
    case ReadForReEnable(_, _) => InventoryStep(s, step)
    case ReadForMove(_, _, _) => InventoryStep(s, step)
    case ReadForDelete(_, _) => InventoryStep(s, step)
    case WriteNumber(_) => InventoryStep(s, step)
    case SweepOffline(_) => InventoryStep(s, step)
    case AdminDisable(_) => InventoryStep(s, step)
    case CreateOrder(_, _, _, _) => OrderStep(s, step)
    case Reserve(_) => OrderStep(s, step)
    case Activate(_, _) => OrderStep(s, step)
    case RedactOtp(_) => OrderStep(s, step)
    case Call(_, _, _, _) => CommandStep(s, step)
    case SelectExpired(_, _, _) => CommandStep(s, step)
    case SelectExpiredListening(_, _, _) => CommandStep(s, step)
    case Lookup(_) => CommandStep(s, step)
    case Load(_) => CommandStep(s, step)
    case Commit(_, _, _) => CommandStep(s, step)
    case Replay(_) => CommandStep(s, step)
    case MatchIncoming(_, _, _, _) => SmsStep(s, step)
    case LoadMatched(_) => SmsStep(s, step)
    case DeliverOtp(_) => SmsStep(s, step)
    case LockStuck(_, _, _) => RecoveryStep(s, step)
    case Recover(_, _, _) => RecoveryStep(s, step)
    case Crash(a) => Retire(s, a)
  }

  /** Any interleaving of any workers is a sequence of actions. */
  function Exec(s: State, steps: seq<Step>): State
    decreases |steps|
  {
    if steps == [] then s else Exec(Next(s, steps[0]), steps[1..])
  }
}
