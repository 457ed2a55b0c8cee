/** The two services that move idle numbers in bulk: a heartbeat brings a device's numbers back, and
    the offline sweep takes the numbers of silent devices away. Neither ever touches a held number. */
module AvailabilityServices {
  import opened Prelude
  import opened OrderStateMachine
  import opened Marketplace
  import opened HoldInvariant
  import opened Paging

  // ---------------------------------------------------------------------------
  // Heartbeat
  // ---------------------------------------------------------------------------

  /** A heartbeat never moves a device's clock back and never revives a disabled device. */
  function Beat(device: Device, receivedAt: Time): Device {
    Device(if device.status.Disabled? then DeviceStatus.Disabled else Online,
           Some(if device.lastSeenAt.Some? && device.lastSeenAt.value > receivedAt then device.lastSeenAt.value else receivedAt))
  }

  predicate IdleOn(number: PhoneNumber, d: DeviceId) {
    number.deviceId == d && (number.status.Offline? || number.status.Available?)
  }

  function Reconciled(number: PhoneNumber, n: NumberId, device: Device, offered: set<NumberId>, now: Time, timeoutSeconds: nat)
    : PhoneNumber
  {
    number.(status := ReconcileAvailability(number.status, number.enabled, number.currentOrder.Some?, n in offered,
                                            device, now, timeoutSeconds))
  }

  /** All idle numbers of the device but those in `left` have been reconciled. */
  predicate ReconciledBut(before: map<NumberId, PhoneNumber>, after: map<NumberId, PhoneNumber>, left: set<NumberId>, d: DeviceId,
                          device: Device, offered: set<NumberId>, now: Time, timeoutSeconds: nat)
  {
    && after.Keys == before.Keys && left <= before.Keys
    && (forall n <- left :: IdleOn(before[n], d))
    && (forall n <- before :: after[n] ==
          if IdleOn(before[n], d) && n !in left then Reconciled(before[n], n, device, offered, now, timeoutSeconds) else before[n])
  }

  lemma ReconciledOneMore(before: map<NumberId, PhoneNumber>, after: map<NumberId, PhoneNumber>, left: set<NumberId>, d: DeviceId,
                          device: Device, offered: set<NumberId>, now: Time, timeoutSeconds: nat, n: NumberId)
    requires ReconciledBut(before, after, left, d, device, offered, now, timeoutSeconds) && n in left
    ensures ReconciledBut(before, after[n := Reconciled(after[n], n, device, offered, now, timeoutSeconds)], left - {n}, d,
                          device, offered, now, timeoutSeconds)
  {
  }

  /** The numbers brought back, once each. */
  ghost predicate Recovered(before: map<NumberId, PhoneNumber>, after: map<NumberId, PhoneNumber>, recovered: seq<NumberId>)
    requires after.Keys == before.Keys
  {
    && (forall n :: n in recovered <==> n in after && after[n].status.Available? && before[n].status.Offline?)
    && (forall i, j :: 0 <= i < j < |recovered| ==> recovered[i] != recovered[j])
  }

  lemma RecoveredOneMore(before: map<NumberId, PhoneNumber>, after: map<NumberId, PhoneNumber>, recovered: seq<NumberId>,
                         n: NumberId, number: PhoneNumber)
    requires after.Keys == before.Keys && Recovered(before, after, recovered) && n in before && after[n] == before[n]
    requires before[n].status.Offline? || before[n].status.Available?
    ensures Recovered(before, after[n := number],
                      if number.status != after[n].status && number.status.Available? then recovered + [n] else recovered)
  {
    assert n !in recovered;
  }

  /** Reconciling a number's status: disabled stays disabled, held stays held, and any other is on offer
      exactly while its device is live, an offer covers it and no order is bound to it. */
  lemma ReconciledExactlyWhen(status: NumberStatus, enabled: bool, hasActiveOrder: bool, hasActiveOffer: bool,
                              device: Device, now: Time, timeoutSeconds: nat)
    ensures var after := ReconcileAvailability(status, enabled, hasActiveOrder, hasActiveOffer, device, now, timeoutSeconds);
            && (after.Disabled? <==> status.Disabled? || !enabled)
            && (!Idle(after) <==> enabled && !Idle(status)) && (!Idle(after) ==> after == status)
            && (after.Available? <==>
                  && enabled && (status.Offline? || status.Available?)
                  && hasActiveOffer && !hasActiveOrder && IsDeviceLive(device, now, timeoutSeconds))
  {
  }

  /** Right after a heartbeat a device is live, so its idle numbers, which are enabled and unbound, are
      offered exactly when an offer covers them; nothing else about any number changes. */
  lemma HeartbeatOffersExactly(db: Db, n: NumberId, d: DeviceId, device: Device, offered: set<NumberId>, now: Time, timeoutSeconds: nat)
    requires HoldInv(db) && n in db.numbers && !device.status.Disabled?
    ensures var number := db.numbers[n];
            (if IdleOn(number, d) then Reconciled(number, n, Beat(device, now), offered, now, timeoutSeconds) else number)
            == if number.deviceId == d && number.status in {NumberStatus.Offline, Available}
               then number.(status := if n in offered then Available else NumberStatus.Offline) else number
  {
    assert NumberRow(db, n);
  }

  /** A heartbeat touches no held number and keeps every hold. */
  lemma HeartbeatKeepsHolds(before: Db, after: Db, d: DeviceId, offered: set<NumberId>, now: Time, timeoutSeconds: nat)
    requires HoldInv(before) && d in before.devices && after.orders == before.orders
    requires after.devices == before.devices[d := Beat(before.devices[d], now)]
    requires after.numbers.Keys == before.numbers.Keys
    requires forall n <- after.numbers :: after.numbers[n] ==
               if IdleOn(before.numbers[n], d)
               then Reconciled(before.numbers[n], n, Beat(before.devices[d], now), offered, now, timeoutSeconds)
               else before.numbers[n]
    ensures HoldInv(after) && Extends(before, after)
    ensures forall n <- before.numbers :: !Idle(before.numbers[n].status) ==> after.numbers[n] == before.numbers[n]
  {
    forall n: NumberId ensures NumberRow(after, n) { assert NumberRow(before, n); }
    forall o: OrderId ensures OrderRow(after, o) && Kept(before, after, o) { assert OrderRow(before, o); }
  }

  /** Inventory and number release judge liveness differently: they disagree exactly on a heartbeat later than now. */
  lemma LivenessAgreesExceptOnFutureHeartbeats(device: Device, now: Time, timeoutSeconds: nat)
    ensures var released := DecideNumberRelease(ReleaseContext(true, device.status, MsOf(device.lastSeenAt),
                                                               Finite(now), Finite(timeoutSeconds * 1000)));
            && (released.Available? ==> IsDeviceLive(device, now, timeoutSeconds))
            && (IsDeviceLive(device, now, timeoutSeconds) && !released.Available?
                <==> device.status.Online? && device.lastSeenAt.Some? && device.lastSeenAt.value > now)
  {
    ReleasedAsAvailableExactlyWhen(ReleaseContext(true, device.status, MsOf(device.lastSeenAt),
                                                  Finite(now), Finite(timeoutSeconds * 1000)));
  }

  /** A device's availability request is refused exactly for a held number. Otherwise the enabled flag
      says whether the number was disabled, and it is offered exactly when that was asked for and the
      device is live, an offer covers it and no order is bound to it. */
  lemma AvailabilityRequestDecides(number: PhoneNumber, device: Device, requested: Availability,
                                   hasActiveOffer: bool, now: Time, timeoutSeconds: nat)
    ensures var target := AvailabilityTarget(number, device, requested, hasActiveOffer, now, timeoutSeconds);
            && (target.None? <==> !Idle(number.status))
            && (target.Some? ==>
                  && (target.value.1 <==> !requested.RequestDisabled?)
                  && (target.value.0.Disabled? <==> requested.RequestDisabled?)
                  && (target.value.0.Available? <==>
                        requested.RequestAvailable? && IsDeviceLive(device, now, timeoutSeconds)
                        && hasActiveOffer && number.currentOrder.None?)
                  && Idle(target.value.0))
  {
  }

  // ---------------------------------------------------------------------------
  // Offline sweep
  // ---------------------------------------------------------------------------

  predicate Stale(device: Device, now: Time, timeoutSeconds: nat) {
    device.status.Online? && (device.lastSeenAt.None? || device.lastSeenAt.value <= now - timeoutSeconds * 1000)
  }

  function StaleIds(db: Db, now: Time, timeoutSeconds: nat): set<DeviceId> {
    set d | d in db.devices && Stale(db.devices[d], now, timeoutSeconds)
  }

  /** The sweep calls a device stale at an age that inventory still calls live: both are true of an
      online device exactly when its age equals the timeout. */
  lemma StaleMeetsLiveExactlyAtTheTimeout(device: Device, now: Time, timeoutSeconds: nat)
    ensures Stale(device, now, timeoutSeconds) && IsDeviceLive(device, now, timeoutSeconds)
            <==> device.status.Online? && device.lastSeenAt.Some? && now - device.lastSeenAt.value == timeoutSeconds * 1000
  {
  }

  /** The devices stale to the sweep are the online ones that inventory no longer calls live, one that was
      never seen included, and those just as old as the timeout: no number stays on offer for a silent device. */
  lemma OnlineIsLiveOrStale(device: Device, now: Time, timeoutSeconds: nat)
    ensures Stale(device, now, timeoutSeconds)
            <==> && device.status.Online?
                 && (!IsDeviceLive(device, now, timeoutSeconds) || now - device.lastSeenAt.value == timeoutSeconds * 1000)
  {
  }

  function SweptDevice(device: Device): Device {
    if device.status.Online? then device.(status := DeviceStatus.Offline) else device
  }

  function SweptNumber(number: PhoneNumber): PhoneNumber {
    if number.status.Available? then number.(status := NumberStatus.Offline) else number
  }

  /** A device found online goes offline, and takes its available numbers with it. */
  function SweptDevices(before: Db, page: seq<DeviceId>): map<DeviceId, Device> {
    map d | d in before.devices :: if d in page then SweptDevice(before.devices[d]) else before.devices[d]
  }

  predicate WentOffline(before: Db, d: DeviceId) { d in before.devices && before.devices[d].status.Online? }

  function SweptNumbers(before: Db, page: seq<DeviceId>): map<NumberId, PhoneNumber> {
    map n | n in before.numbers ::
      if before.numbers[n].deviceId in page && WentOffline(before, before.numbers[n].deviceId)
      then SweptNumber(before.numbers[n]) else before.numbers[n]
  }

  /** The rows after every device on the page has been swept. */
  predicate SweptTo(before: Db, after: Db, page: seq<DeviceId>) {
    after == Db(before.orders, SweptNumbers(before, page), SweptDevices(before, page))
  }

  lemma SweptNothing(before: Db)
    ensures SweptTo(before, before, [])
  {
    assert before.devices == SweptDevices(before, []);
    assert before.numbers == SweptNumbers(before, []);
  }

  lemma SweptOneMore(start: Db, before: Db, after: Db, page: seq<DeviceId>, d: DeviceId)
    requires SweptTo(start, before, page) && SweptTo(before, after, [d])
    ensures SweptTo(start, after, page + [d])
  {
    assert after.devices == SweptDevices(start, page + [d]);
    assert after.numbers == SweptNumbers(start, page + [d]);
  }

  /** A sweep of a page takes the devices on it that are online offline, and the available numbers of just
      these devices; it changes nothing else. */
  lemma SweepDoesExactly(before: Db, after: Db, page: seq<DeviceId>)
    requires SweptTo(before, after, page)
    ensures after.orders == before.orders && after.devices.Keys == before.devices.Keys && after.numbers.Keys == before.numbers.Keys
    ensures forall d <- before.devices ::
              after.devices[d] == if d in page && before.devices[d].status == DeviceStatus.Online
                                  then before.devices[d].(status := DeviceStatus.Offline) else before.devices[d]
    ensures forall n <- before.numbers ::
              var number, d := before.numbers[n], before.numbers[n].deviceId;
              after.numbers[n] == if d in page && d in before.devices && before.devices[d].status == DeviceStatus.Online
                                     && number.status == Available
                                  then number.(status := NumberStatus.Offline) else number
  {
  }

  /** The sweep touches no held number and keeps every hold. */
  lemma SweepKeepsHolds(before: Db, after: Db, page: seq<DeviceId>)
    requires HoldInv(before) && SweptTo(before, after, page)
    ensures HoldInv(after) && Extends(before, after)
    ensures forall n <- before.numbers :: !Idle(before.numbers[n].status) ==> n in after.numbers && after.numbers[n] == before.numbers[n]
  {
    forall n: NumberId ensures NumberRow(after, n) { assert NumberRow(before, n); }
    forall o: OrderId ensures OrderRow(after, o) && Kept(before, after, o) { assert OrderRow(before, o); }
  }

  // ---------------------------------------------------------------------------
  // The programs
  // ---------------------------------------------------------------------------

  class Inventory {
    var orders: map<OrderId, Order>
    var numbers: map<NumberId, PhoneNumber>
    var devices: map<DeviceId, Device>

    function Rows(): Db
      reads this
    { Db(orders, numbers, devices) }

    constructor ()
      ensures Rows() == Init().db
    {
      orders, numbers, devices := map[], map[], map[];
    }

    /** Compare-and-set of a number's status. */
    method ApplyNumberStatus(n: NumberId, from: NumberStatus, to: NumberStatus) returns (applied: bool)
      modifies this`numbers
      ensures applied <==> WriteNumberStatus(old(Rows()), n, from, to, None).Some?
      ensures Rows() == WriteNumberStatus(old(Rows()), n, from, to, None).GetOr(old(Rows()))
    {
      if n !in numbers || numbers[n].status != from {
        return false;
      }
      numbers := numbers[n := numbers[n].(status := to)];
      return true;
    }

    /** Recomputes the availability of a device's idle numbers; `recovered` lists, once each, the
        numbers it brought back. */
    method ReconcileIdleNumbers(d: DeviceId, device: Device, offered: set<NumberId>, now: Time, timeoutSeconds: nat)
      returns (recovered: seq<NumberId>)
      modifies this`numbers
      ensures numbers.Keys == old(numbers).Keys
      ensures forall n <- numbers :: numbers[n] ==
                if IdleOn(old(numbers)[n], d) then Reconciled(old(numbers)[n], n, device, offered, now, timeoutSeconds)
                else old(numbers)[n]
      ensures forall n :: n in recovered <==> n in numbers && numbers[n].status.Available? && old(numbers)[n].status.Offline?
      ensures forall i, j :: 0 <= i < j < |recovered| ==> recovered[i] != recovered[j]
    {
      ghost var before := numbers;
      recovered := [];
      var idle := set n | n in numbers && IdleOn(numbers[n], d);
      while idle != {}
        invariant ReconciledBut(before, numbers, idle, d, device, offered, now, timeoutSeconds)
        invariant Recovered(before, numbers, recovered)
      {
        var n :| n in idle;
        var number := numbers[n];
        var target := ReconcileAvailability(number.status, number.enabled, number.currentOrder.Some?, n in offered,
                                            device, now, timeoutSeconds);
        ghost var was, listed := numbers, recovered;
        if target != number.status {
          var applied := ApplyNumberStatus(n, number.status, target);
          if applied && target.Available? {
            recovered := recovered + [n];
          }
        }
        assert numbers == was[n := Reconciled(was[n], n, device, offered, now, timeoutSeconds)];
        ReconciledOneMore(before, was, idle, d, device, offered, now, timeoutSeconds, n);
        RecoveredOneMore(before, was, listed, n, numbers[n]);
        idle := idle - {n};
      }
    }

    method RecordHeartbeat(d: DeviceId, offered: set<NumberId>, receivedAt: Time, timeoutSeconds: nat)
      returns (ok: bool, recovered: seq<NumberId>)
      modifies this`numbers, this`devices
      ensures ok <==> d in old(devices) && !old(devices)[d].status.Disabled?
      ensures !ok ==> Rows() == old(Rows()) && recovered == []
      ensures ok ==>
                && devices == old(devices)[d := Beat(old(devices)[d], receivedAt)]
                && numbers.Keys == old(numbers).Keys
                && (forall n <- numbers :: numbers[n] ==
                      if IdleOn(old(numbers)[n], d)
                      then Reconciled(old(numbers)[n], n, Beat(old(devices)[d], receivedAt), offered, receivedAt, timeoutSeconds)
                      else old(numbers)[n])
                && (forall n :: n in recovered <==> n in numbers && numbers[n].status.Available? && old(numbers)[n].status.Offline?)
      ensures HoldInv(old(Rows())) ==> HoldInv(Rows())
      ensures ok && HoldInv(old(Rows())) ==>
                forall n <- numbers :: numbers[n] ==
                  if old(numbers)[n].deviceId == d && old(numbers)[n].status in {NumberStatus.Offline, Available}
                  then old(numbers)[n].(status := if n in offered then Available else NumberStatus.Offline) else old(numbers)[n]
    {
      if d !in devices || devices[d].status.Disabled? {
        return false, [];
      }
      devices := devices[d := Beat(devices[d], receivedAt)];
      recovered := ReconcileIdleNumbers(d, devices[d], offered, receivedAt, timeoutSeconds);
      if HoldInv(old(Rows())) {
        HeartbeatKeepsHolds(old(Rows()), Rows(), d, offered, receivedAt, timeoutSeconds);
        forall n <- numbers
          ensures numbers[n] == if old(numbers)[n].deviceId == d && old(numbers)[n].status in {NumberStatus.Offline, Available}
                                then old(numbers)[n].(status := if n in offered then Available else NumberStatus.Offline)
                                else old(numbers)[n]
        {
          HeartbeatOffersExactly(old(Rows()), n, d, old(devices)[d], offered, receivedAt, timeoutSeconds);
        }
      }
      ok := true;
    }

    method MarkDeviceOffline(d: DeviceId) returns (wentOffline: bool)
      modifies this`devices
      ensures wentOffline <==> d in old(devices) && old(devices)[d].status.Online?
      ensures devices == if wentOffline then old(devices)[d := SweptDevice(old(devices)[d])] else old(devices)
    {
      if d !in devices || !devices[d].status.Online? {
        return false;
      }
      devices := devices[d := devices[d].(status := DeviceStatus.Offline)];
      return true;
    }

    /** Takes every available number of one device offline. */
    method TakeNumbersOffline(d: DeviceId)
      modifies this`numbers
      ensures numbers.Keys == old(numbers).Keys
      ensures forall n <- numbers :: numbers[n] ==
                if old(numbers)[n].deviceId == d then SweptNumber(old(numbers)[n]) else old(numbers)[n]
    {
      var idle := set n | n in numbers && numbers[n].deviceId == d && numbers[n].status.Available?;
      while idle != {}
        invariant numbers.Keys == old(numbers).Keys && idle <= numbers.Keys
        invariant forall n <- numbers :: numbers[n] ==
                    if old(numbers)[n].deviceId == d && n !in idle then SweptNumber(old(numbers)[n]) else old(numbers)[n]
      {
        var n :| n in idle;
        var _ := ApplyNumberStatus(n, Available, NumberStatus.Offline);
        idle := idle - {n};
      }
    }

    /** Sweeps one device, unless it has come back online or vanished since it was listed. */
    method SweepDevice(d: DeviceId) returns (swept: bool)
      modifies this`numbers, this`devices
      ensures swept <==> WentOffline(old(Rows()), d)
      ensures SweptTo(old(Rows()), Rows(), [d])
    {
      swept := MarkDeviceOffline(d);
      if swept {
        TakeNumbersOffline(d);
      }
      assert devices == SweptDevices(old(Rows()), [d]);
      assert numbers == SweptNumbers(old(Rows()), [d]);
    }

    /** The loop over a page of stale devices. */
    method SweepPage(page: seq<DeviceId>) returns (processed: nat)
      requires forall i, j :: 0 <= i < j < |page| ==> page[i] != page[j]
      requires forall i :: 0 <= i < |page| ==> WentOffline(Rows(), page[i])
      modifies this`numbers, this`devices
      ensures processed == |page| && SweptTo(old(Rows()), Rows(), page)
    {
      processed := 0;
      SweptNothing(Rows());
      for i := 0 to |page|
        invariant processed == i
        invariant SweptTo(old(Rows()), Rows(), page[..i])
      {
        ghost var before := Rows();
        assert WentOffline(old(Rows()), page[i]) && page[i] !in page[..i];
        var swept := SweepDevice(page[i]);
        assert page[..i + 1] == page[..i] + [page[i]];
        SweptOneMore(old(Rows()), before, Rows(), page[..i], page[i]);
        if swept {
          processed := processed + 1;
        }
      }
      assert page[..|page|] == page;
    }

    /** One bounded batch of the offline sweep. */
    method SweepBatch(cursor: JobCursor, batchSize: int, now: Time, timeoutSeconds: nat) returns (r: BatchResult)
      modifies this`numbers, this`devices
      ensures var limit := if batchSize < 1 then 1 else batchSize;
              var page := Page(StaleIds(old(Rows()), now, timeoutSeconds), DecodeAfterId(cursor), limit);
              && r == BatchResult(|page|, EncodeBatchCursor(|page| < limit, LastOf(page)), |page| < limit)
              && SweptTo(old(Rows()), Rows(), page)
      ensures HoldInv(old(Rows())) ==> HoldInv(Rows())
    {
      var limit := if batchSize < 1 then 1 else batchSize;
      var page := Page(StaleIds(Rows(), now, timeoutSeconds), DecodeAfterId(cursor), limit);
      ghost var before := Rows();
      forall i | 0 <= i < |page| ensures WentOffline(before, page[i]) {
        assert page[i] in StaleIds(before, now, timeoutSeconds);
      }
      var processed := SweepPage(page);
      if HoldInv(before) {
        SweepKeepsHolds(before, Rows(), page);
      }
      r := BatchResult(processed, EncodeBatchCursor(|page| < limit, LastOf(page)), |page| < limit);
    }
  }
}
