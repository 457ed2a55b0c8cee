/** The order/number state machine: which command may move an order, and what
    happens to the number the order is bound to. */
module OrderStateMachine {
  import opened Prelude

  datatype OrderStatus = Created | Reserved | WaitingSms | Success | Cancelled | Timeout | Failed

  datatype NumberStatus = Offline | Available | Reserved | Busy | Disabled

  datatype DeviceStatus = Online | Offline | Disabled

  /** A JavaScript number used as an instant or a duration: NaN and the infinities are `NotFinite`. */
  datatype Ms = NotFinite | Finite(ms: int) {
    predicate IsTimestamp() { Finite? && ms >= 0 }
  }

  datatype ReleaseContext = ReleaseContext(
    numberEnabled: bool,
    deviceStatus: DeviceStatus,
    deviceLastSeenAt: Option<Ms>,
    observedAt: Ms,
    heartbeatTimeout: Ms)

  datatype Command =
    | Reserve
    | Activate
    | Succeed
    | Cancel(reason: string, createdAt: Ms, observedAt: Ms, minimumCancelAge: Ms, release: ReleaseContext)
    | Timeout(expiresAt: Ms, observedAt: Ms, release: ReleaseContext)
    | Fail(release: ReleaseContext)

  datatype RejectCode = StateConflict | TerminalStateConflict | CancelNotAllowed

  datatype RejectReason =
    | IllegalTransition
    | TerminalAbsorbing
    | DifferentTerminalState
    | NumberStateMismatch
    | CancelTooEarly
    | OtpAlreadyReceived
    | TimeoutNotReached
    | InvalidTransitionContext

  datatype Decision =
    | Apply(expectedOrder: OrderStatus, expectedNumber: Option<NumberStatus>,
            nextOrder: OrderStatus, nextNumber: NumberStatus, disposition: Option<NumberStatus>)
    | NoChange(target: OrderStatus, nextNumber: NumberStatus, disposition: Option<NumberStatus>)
    | Reject(code: RejectCode, reason: RejectReason)

  const MAIN_COMPENSATION := "MAIN_COMPENSATION"

  function TargetStatus(command: Command): OrderStatus {
    match command
    case Reserve => OrderStatus.Reserved
    case Activate => WaitingSms
    case Succeed => Success
    case Cancel(_, _, _, _, _) => Cancelled
    case Timeout(_, _, _) => OrderStatus.Timeout
    case Fail(_) => Failed
  }

  predicate IsTerminal(status: OrderStatus) {
    status in {Success, Cancelled, OrderStatus.Timeout, Failed}
  }

  function ValidSources(target: OrderStatus): set<OrderStatus> {
    match target
    case Created => {}
    case Reserved => {Created}
    case WaitingSms => {OrderStatus.Reserved}
    case Success => {WaitingSms}
    case Cancelled => {OrderStatus.Reserved, WaitingSms}
    case Timeout => {OrderStatus.Reserved, WaitingSms}
    case Failed => {Created, WaitingSms}
  }

  predicate HasValidReleaseContext(context: ReleaseContext) {
    && context.observedAt.IsTimestamp()
    && context.heartbeatTimeout.IsTimestamp()
    && (context.deviceLastSeenAt.None? || context.deviceLastSeenAt.value.IsTimestamp())
  }

  function DecideNumberRelease(context: ReleaseContext): NumberStatus {
    if !context.numberEnabled
       || !context.deviceStatus.Online?
       || context.deviceLastSeenAt.None?
       || !HasValidReleaseContext(context)
    then NumberStatus.Offline
    else
      var age := context.observedAt.ms - context.deviceLastSeenAt.value.ms;
      if 0 <= age <= context.heartbeatTimeout.ms then Available else NumberStatus.Offline
  }

  function UnchangedDisposition(status: NumberStatus): Option<NumberStatus> {
    if status.Available? || status.Offline? then Some(status) else None
  }

  /** The guards only a cancel has, in the order they are evaluated. */
  function CancelRefusal(orderStatus: OrderStatus, otpReceived: bool, command: Command): Option<Decision>
    requires command.Cancel?
  {
    if || !command.createdAt.IsTimestamp()
       || !command.observedAt.IsTimestamp()
       || !command.minimumCancelAge.IsTimestamp()
       || command.release.observedAt != command.observedAt
    then Some(Reject(StateConflict, InvalidTransitionContext))
    else if otpReceived then Some(Reject(CancelNotAllowed, OtpAlreadyReceived))
    else if !(command.reason == MAIN_COMPENSATION && orderStatus.Reserved?)
            && command.observedAt.ms - command.createdAt.ms < command.minimumCancelAge.ms
    then Some(Reject(CancelNotAllowed, CancelTooEarly))
    else None
  }

  /** The guards only a timeout has, in the order they are evaluated. */
  function TimeoutRefusal(otpReceived: bool, command: Command): Option<Decision>
    requires command.Timeout?
  {
    if || !command.expiresAt.IsTimestamp()
       || !command.observedAt.IsTimestamp()
       || command.release.observedAt != command.observedAt
    then Some(Reject(StateConflict, InvalidTransitionContext))
    else if otpReceived then Some(Reject(StateConflict, OtpAlreadyReceived))
    else if command.observedAt.ms < command.expiresAt.ms
    then Some(Reject(StateConflict, TimeoutNotReached))
    else None
  }

  function ApplyWhenNumberMatches(
    orderStatus: OrderStatus, numberStatus: NumberStatus, target: OrderStatus,
    expected: NumberStatus, next: NumberStatus, disposition: Option<NumberStatus>): Decision
  {
    if numberStatus != expected then Reject(StateConflict, NumberStateMismatch)
    else Apply(orderStatus, Some(expected), target, next, disposition)
  }

  function Pair(orderStatus: OrderStatus, numberStatus: NumberStatus, command: Command): Decision {
    var target := TargetStatus(command);
    match command
    case Reserve =>
      ApplyWhenNumberMatches(orderStatus, numberStatus, target, Available, NumberStatus.Reserved, None)
    case Activate =>
      ApplyWhenNumberMatches(orderStatus, numberStatus, target, NumberStatus.Reserved, Busy, None)
    case Succeed =>
      // The money settles but the number stays held for the listening window.
      ApplyWhenNumberMatches(orderStatus, numberStatus, target, Busy, numberStatus, None)
    case _ =>
      if orderStatus.Created? then Apply(orderStatus, None, target, numberStatus, None)
      else if !HasValidReleaseContext(command.release) then Reject(StateConflict, InvalidTransitionContext)
      else
        var expected := if orderStatus.Reserved? then NumberStatus.Reserved else Busy;
        var disposition := DecideNumberRelease(command.release);
        ApplyWhenNumberMatches(orderStatus, numberStatus, target, expected, disposition, Some(disposition))
  }

  function Decide(orderStatus: OrderStatus, numberStatus: NumberStatus, otpReceived: bool, command: Command)
    : (d: Decision)
  {
    var target := TargetStatus(command);
    if orderStatus == target then
      NoChange(target, numberStatus, if IsTerminal(target) then UnchangedDisposition(numberStatus) else None)
    else if IsTerminal(orderStatus) then
      if IsTerminal(target) then Reject(TerminalStateConflict, DifferentTerminalState)
      else Reject(StateConflict, TerminalAbsorbing)
    else if orderStatus !in ValidSources(target) then Reject(StateConflict, IllegalTransition)
    else
      var refusal :=
        match command
        case Cancel(_, _, _, _, _) => CancelRefusal(orderStatus, otpReceived, command)
        case Timeout(_, _, _) => TimeoutRefusal(otpReceived, command)
        case _ => None;
      if refusal.Some? then refusal.value else Pair(orderStatus, numberStatus, command)
  }

  // ---------------------------------------------------------------------------
  // What the decisions mean
  // ---------------------------------------------------------------------------

  /** The status a number has while an order in this status holds it; `None` when the order holds nothing.
      A successful order holds its number until the hold is released. */
  function HeldAs(status: OrderStatus, completed: bool): Option<NumberStatus> {
    match status
    case Reserved => Some(NumberStatus.Reserved)
    case WaitingSms => Some(Busy)
    case Success => if completed then None else Some(Busy)
    case _ => None
  }

  predicate Idle(status: NumberStatus) { status in {NumberStatus.Offline, Available, NumberStatus.Disabled} }

  predicate Edge(from: OrderStatus, to: OrderStatus) {
    || (from.Created? && (to.Reserved? || to.Failed?))
    || (from.Reserved? && (to.WaitingSms? || to.Cancelled? || to.Timeout?))
    || (from.WaitingSms? && IsTerminal(to))
  }

  /** Every guard a legal move has to meet, without any order of evaluation. */
  predicate Legal(orderStatus: OrderStatus, numberStatus: NumberStatus, otpReceived: bool, command: Command) {
    && Edge(orderStatus, TargetStatus(command))
    && (HeldAs(orderStatus, false) == (if orderStatus.Created? then None else Some(numberStatus)))
    && (command.Reserve? ==> numberStatus.Available?)
    && (command.Cancel? || command.Timeout? || command.Fail? ==>
          orderStatus.Created? || HasValidReleaseContext(command.release))
    && (command.Cancel? ==>
          && !otpReceived
          && command.createdAt.IsTimestamp() && command.observedAt.IsTimestamp()
          && command.minimumCancelAge.IsTimestamp()
          && command.release.observedAt == command.observedAt
          && ((command.reason == MAIN_COMPENSATION && orderStatus.Reserved?)
              || command.observedAt.ms - command.createdAt.ms >= command.minimumCancelAge.ms))
    && (command.Timeout? ==>
          && !otpReceived
          && command.expiresAt.IsTimestamp() && command.observedAt.IsTimestamp()
          && command.release.observedAt == command.observedAt
          && command.observedAt.ms >= command.expiresAt.ms)
  }

  /** A command is applied exactly when it is legal; a legal command moves the order to its target. */
  lemma AppliedExactlyWhenLegal(
    orderStatus: OrderStatus, numberStatus: NumberStatus, otpReceived: bool, command: Command)
    ensures Decide(orderStatus, numberStatus, otpReceived, command).Apply?
            <==> Legal(orderStatus, numberStatus, otpReceived, command)
    ensures Legal(orderStatus, numberStatus, otpReceived, command) ==>
              var d := Decide(orderStatus, numberStatus, otpReceived, command);
              d.expectedOrder == orderStatus && d.nextOrder == TargetStatus(command)
  {
    var target := TargetStatus(command);
    assert orderStatus != target && !IsTerminal(orderStatus) && orderStatus in ValidSources(target)
           <==> Edge(orderStatus, target);
  }

  /** The number always ends in the status its order's next status calls for: held while the order
      still holds it, idle as soon as it does not, untouched when the order never held one. */
  lemma AppliedPairsTheNumber(
    orderStatus: OrderStatus, numberStatus: NumberStatus, otpReceived: bool, command: Command)
    requires Decide(orderStatus, numberStatus, otpReceived, command).Apply?
    ensures var d := Decide(orderStatus, numberStatus, otpReceived, command);
            match HeldAs(d.nextOrder, false)
            case Some(h) => d.nextNumber == h
            case None => if orderStatus.Created? then d.nextNumber == numberStatus
                         else d.disposition == Some(d.nextNumber) && d.nextNumber == DecideNumberRelease(command.release)
                              && Idle(d.nextNumber) && d.nextNumber != numberStatus
  {
    AppliedExactlyWhenLegal(orderStatus, numberStatus, otpReceived, command);
  }

  /** A released number is offered again exactly when it is enabled and its device was seen alive
      within the heartbeat window, and never on a heartbeat later than the observation, nor on an
      instant or a timeout that is negative or no number. */
  lemma ReleasedAsAvailableExactlyWhen(context: ReleaseContext)
    ensures var (seen, now, timeout) := (context.deviceLastSeenAt, context.observedAt, context.heartbeatTimeout);
            DecideNumberRelease(context).Available? <==>
              && context.numberEnabled && context.deviceStatus == Online
              && seen.Some? && seen.value.Finite? && now.Finite? && timeout.Finite?
              && 0 <= seen.value.ms <= now.ms <= seen.value.ms + timeout.ms
    ensures !DecideNumberRelease(context).Available? ==> DecideNumberRelease(context) == NumberStatus.Offline
  {
  }
}
