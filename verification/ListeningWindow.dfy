/** The listening window of a successful order, and the one-time release of its hold. */
module ListeningWindow {
  import opened Prelude
  import opened OrderStateMachine

  datatype Trigger = BuyerComplete | ExpirySweep

  datatype ListeningOrder = ListeningOrder(orderId: nat, status: OrderStatus, completedAt: Option<Ms>, expiresAt: Ms)

  datatype HoldRelease =
    | Release(completedAt: Ms, nextNumber: NumberStatus, numberChanged: bool, disposition: Option<NumberStatus>)
    | AlreadyCompleted
    | Refuse(reason: RefuseReason)

  datatype RefuseReason = OrderNotSuccessful | WindowStillOpen | InvalidContext

  predicate IsListeningOrder(order: ListeningOrder, observedAt: Ms) {
    && order.status.Success?
    && order.completedAt.None?
    && order.expiresAt.IsTimestamp()
    && observedAt.IsTimestamp()
    && observedAt.ms <= order.expiresAt.ms
  }

  /** `numberCurrentOrder` is the order the number points at when the row is read. */
  function DecideHoldRelease(
    order: ListeningOrder, numberStatus: NumberStatus, numberCurrentOrder: Option<nat>, trigger: Trigger,
    observedAt: Ms, release: ReleaseContext): (d: HoldRelease)
  {
    if !observedAt.IsTimestamp() || !order.expiresAt.IsTimestamp() || release.observedAt != observedAt
    then Refuse(InvalidContext)
    else if order.completedAt.Some? then AlreadyCompleted
    else if !order.status.Success? then Refuse(OrderNotSuccessful)
    else if trigger.ExpirySweep? && observedAt.ms <= order.expiresAt.ms then Refuse(WindowStillOpen)
    else if !((numberStatus.Busy? || numberStatus.Reserved?) && numberCurrentOrder == Some(order.orderId))
    then Release(observedAt, numberStatus, false, None)
    else
      var disposition := DecideNumberRelease(release);
      Release(observedAt, disposition, disposition != numberStatus, Some(disposition))
  }

  /** On a valid context an open hold of a successful order is released by its buyer at any instant, and
      by the sweep only after the expiry; a hold that is over is reported as such; everything else is
      refused. A release is stamped with the very instant it was asked for. */
  lemma ReleasedExactlyWhen(
    order: ListeningOrder, numberStatus: NumberStatus, numberCurrentOrder: Option<nat>, trigger: Trigger,
    observedAt: Ms, release: ReleaseContext)
    ensures var d := DecideHoldRelease(order, numberStatus, numberCurrentOrder, trigger, observedAt, release);
            var valid := observedAt.IsTimestamp() && order.expiresAt.IsTimestamp() && release.observedAt == observedAt;
            && (d == Refuse(InvalidContext) <==> !valid)
            && (d.AlreadyCompleted? <==> valid && order.completedAt.Some?)
            && (d == Refuse(OrderNotSuccessful) <==> valid && order.completedAt.None? && !order.status.Success?)
            && (d == Refuse(WindowStillOpen) <==>
                  && valid && order.completedAt.None? && order.status.Success?
                  && trigger == ExpirySweep && observedAt.ms <= order.expiresAt.ms)
            && (d.Release? <==>
                  && valid && order.completedAt.None? && order.status.Success?
                  && (trigger == BuyerComplete || observedAt.ms > order.expiresAt.ms))
            && (d.Release? ==> d.completedAt == observedAt)
  {
  }

  /** The sweep and the listening predicate split the time line of an open hold between them: at
      every valid instant exactly one of "still listening" and "the sweep releases" is true. */
  lemma SweepClosesExactlyWhatNoLongerListens(
    order: ListeningOrder, numberStatus: NumberStatus, numberCurrentOrder: Option<nat>, observedAt: Ms, release: ReleaseContext)
    requires observedAt.IsTimestamp() && order.expiresAt.IsTimestamp() && release.observedAt == observedAt
    requires order.status.Success? && order.completedAt.None?
    ensures DecideHoldRelease(order, numberStatus, numberCurrentOrder, ExpirySweep, observedAt, release).Release?
            <==> !IsListeningOrder(order, observedAt)
  {
  }

  /** An order listens exactly while a sweep that looks at it is told that its window is still open. */
  lemma ListensExactlyWhileTheSweepWaits(
    order: ListeningOrder, numberStatus: NumberStatus, numberCurrentOrder: Option<nat>, observedAt: Ms, release: ReleaseContext)
    requires release.observedAt == observedAt
    ensures IsListeningOrder(order, observedAt)
            <==> DecideHoldRelease(order, numberStatus, numberCurrentOrder, ExpirySweep, observedAt, release) == Refuse(WindowStillOpen)
  {
  }

  /** A release never touches a number that has moved on, and otherwise always leaves it idle. */
  lemma ReleaseFreesOnlyItsOwnNumber(
    order: ListeningOrder, numberStatus: NumberStatus, numberCurrentOrder: Option<nat>, trigger: Trigger,
    observedAt: Ms, release: ReleaseContext)
    requires DecideHoldRelease(order, numberStatus, numberCurrentOrder, trigger, observedAt, release).Release?
    ensures var d := DecideHoldRelease(order, numberStatus, numberCurrentOrder, trigger, observedAt, release);
            && d.completedAt == observedAt && order.status.Success? && order.completedAt.None?
            && (d.numberChanged <==> numberCurrentOrder == Some(order.orderId) && !Idle(numberStatus))
            && (d.numberChanged ==> Idle(d.nextNumber) && d.nextNumber == DecideNumberRelease(release))
            && (!d.numberChanged ==> d.nextNumber == numberStatus && d.disposition.None?)
  {
  }
}
