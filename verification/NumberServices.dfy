/** The commands that manage one number: read, decide, compare-and-set. What other workers do to the row
    between the read and the write is an argument, so the read may be stale. */
module NumberServices {
  import opened Prelude
  import opened OrderStateMachine
  import opened Marketplace
  import opened HoldInvariant

  datatype Outcome = Done | NotFound | StateGuarded(status: NumberStatus) | NotDisabled | DeviceNotFound

  type Rival = PhoneNumber -> PhoneNumber

  function WithRow(db: Db, n: NumberId, row: PhoneNumber): Db { db.(numbers := db.numbers[n := row]) }

  /** The writes of all these commands keep every hold, whatever the rival did, as long as the rival did. */
  lemma ManagedWriteKeeps(db: Db, n: NumberId, from: NumberStatus, row: PhoneNumber, written: PhoneNumber)
    requires HoldInv(WithRow(db, n, row)) && Idle(from) && row.status == from
    requires Idle(written.status) && (written.enabled <==> !written.status.Disabled?)
    requires written.currentOrder == row.currentOrder && written.deviceId in db.devices
    ensures HoldInv(WithRow(db, n, written))
  {
    EditIdleNumber(WithRow(db, n, row), n, written);
    assert WithRow(WithRow(db, n, row), n, written) == WithRow(db, n, written);
  }

  /** A command of the composed machine, whose number has become `row` between its read and its write. */
  function Raced(s: State, read: Step, a: AttemptId, n: NumberId, row: PhoneNumber): Db {
    var begun := InventoryStep(s, read);
    InventoryStep(begun.(db := WithRow(begun.db, n, row)), WriteNumber(a)).db
  }

  lemma StatusWriteLands(s: State, a: AttemptId, n: NumberId, row: PhoneNumber, from: NumberStatus, to: NumberStatus, enabled: Option<bool>)
    requires a in s.attempts && s.attempts[a] == StatusWrite(n, from, to, enabled)
    ensures InventoryStep(s.(db := WithRow(s.db, n, row)), WriteNumber(a)).db
            == WithRow(s.db, n, if row.status == from then row.(status := to, enabled := enabled.GetOr(row.enabled)) else row)
  {
    var raced := WithRow(s.db, n, row);
    assert raced.numbers[n] == row;
    assert forall written :: WithRow(raced, n, written) == WithRow(s.db, n, written);
  }

  /** The composed machine's commands do to a number what the methods below do, rivals included: each goes
      through exactly when it was legal at its read and the status has not changed by its write. */
  lemma DisableDoesExactly(s: State, a: AttemptId, n: NumberId, row: PhoneNumber)
    requires a !in s.attempts && n in s.db.numbers
    ensures var number := s.db.numbers[n];
            Raced(s, ReadForDisable(a, n), a, n, row)
            == WithRow(s.db, n, if Idle(number.status) && row.status == number.status
                                then row.(status := NumberStatus.Disabled, enabled := false) else row)
  {
    var begun, number := InventoryStep(s, ReadForDisable(a, n)), s.db.numbers[n];
    if Idle(number.status) { StatusWriteLands(begun, a, n, row, number.status, NumberStatus.Disabled, Some(false)); }
  }

  lemma ReEnableDoesExactly(s: State, a: AttemptId, n: NumberId, row: PhoneNumber)
    requires a !in s.attempts && n in s.db.numbers
    ensures Raced(s, ReadForReEnable(a, n), a, n, row)
            == WithRow(s.db, n, if s.db.numbers[n].status.Disabled? && row.status.Disabled?
                                then row.(status := NumberStatus.Offline, enabled := true) else row)
  {
    var begun := InventoryStep(s, ReadForReEnable(a, n));
    if s.db.numbers[n].status.Disabled? { StatusWriteLands(begun, a, n, row, NumberStatus.Disabled, NumberStatus.Offline, Some(true)); }
  }

  lemma MoveDoesExactly(s: State, a: AttemptId, n: NumberId, row: PhoneNumber, target: DeviceId)
    requires a !in s.attempts && n in s.db.numbers
    ensures var number := s.db.numbers[n];
            Raced(s, ReadForMove(a, n, target), a, n, row)
            == WithRow(s.db, n, if Idle(number.status) && target in s.db.devices && row.status == number.status
                                then row.(deviceId := target) else row)
  {
    var raced := WithRow(s.db, n, row);
    assert raced.numbers[n] == row;
    assert forall written :: WithRow(raced, n, written) == WithRow(s.db, n, written);
  }

  /** A deletion goes through exactly for a number that was idle and that no order names by then. */
  lemma DeleteDoesExactly(s: State, a: AttemptId, n: NumberId, row: PhoneNumber)
    requires a !in s.attempts && n in s.db.numbers
    ensures Raced(s, ReadForDelete(a, n), a, n, row)
            == if Idle(s.db.numbers[n].status) && (forall o <- s.db.orders :: s.db.orders[o].numberId != n)
               then s.db.(numbers := s.db.numbers - {n}) else WithRow(s.db, n, row)
  {
    assert s.db.numbers[n := row] - {n} == s.db.numbers - {n};
  }

  /** The same of a heartbeat. */
  lemma HeartbeatDoesExactly(s: State, a: AttemptId, n: NumberId, row: PhoneNumber, hasActiveOffer: bool, now: Time, timeoutSeconds: nat)
    requires a !in s.attempts && n in s.db.numbers && s.db.numbers[n].deviceId in s.db.devices
    ensures var number := s.db.numbers[n];
            Raced(s, ReadForHeartbeat(a, n, hasActiveOffer, now, timeoutSeconds), a, n, row)
            == WithRow(s.db, n, if number.status in {NumberStatus.Offline, Available} && row.status == number.status
                                then row.(status := ReconcileAvailability(number.status, number.enabled, number.currentOrder.Some?,
                                                                          hasActiveOffer, s.db.devices[number.deviceId], now, timeoutSeconds))
                                else row)
  {
    var begun, number := InventoryStep(s, ReadForHeartbeat(a, n, hasActiveOffer, now, timeoutSeconds)), s.db.numbers[n];
    if a in begun.attempts {
      StatusWriteLands(begun, a, n, row, number.status, begun.attempts[a].to, None);
    }
  }

  /** The same of a device's own request. */
  lemma AvailabilityDoesExactly(s: State, a: AttemptId, n: NumberId, row: PhoneNumber, requested: Availability,
                                hasActiveOffer: bool, now: Time, timeoutSeconds: nat)
    requires a !in s.attempts && n in s.db.numbers && s.db.numbers[n].deviceId in s.db.devices
    ensures var number := s.db.numbers[n];
            Raced(s, ReadForAvailability(a, n, requested, hasActiveOffer, now, timeoutSeconds), a, n, row)
            == WithRow(s.db, n, match AvailabilityTarget(number, s.db.devices[number.deviceId], requested, hasActiveOffer, now, timeoutSeconds)
                                case None => row
                                case Some((status, enabled)) =>
                                  if row.status == number.status then row.(status := status, enabled := enabled) else row)
  {
    var begun, number := InventoryStep(s, ReadForAvailability(a, n, requested, hasActiveOffer, now, timeoutSeconds)), s.db.numbers[n];
    var target := AvailabilityTarget(number, s.db.devices[number.deviceId], requested, hasActiveOffer, now, timeoutSeconds);
    if target.Some? { StatusWriteLands(begun, a, n, row, number.status, target.value.0, Some(target.value.1)); }
  }

  /** Of the commands that are one action, the offline sweep takes available numbers only, and an
      administrator's disable idle ones only. */
  lemma OneActionDoesExactly(s: State, n: NumberId)
    requires n in s.db.numbers
    ensures var number := s.db.numbers[n];
            && InventoryStep(s, SweepOffline(n)).db
               == WithRow(s.db, n, if number.status.Available? then number.(status := NumberStatus.Offline) else number)
            && InventoryStep(s, AdminDisable(n)).db
               == WithRow(s.db, n, if Idle(number.status) then number.(status := NumberStatus.Disabled, enabled := false) else number)
  {
    assert s.db.numbers[n := s.db.numbers[n]] == s.db.numbers;
  }

  class NumberTable {
    var orders: map<OrderId, Order>
    var numbers: map<NumberId, PhoneNumber>
    var devices: map<DeviceId, Device>

    function Rows(): Db
      reads this
    { Db(orders, numbers, devices) }

    constructor ()
      ensures Rows() == Init().db
    {
      orders, numbers, devices := map[], map[], map[];
    }

    method UpdateNumberStatus(n: NumberId, expected: NumberStatus, status: NumberStatus, enabled: bool) returns (updated: bool)
      modifies this`numbers
      ensures updated <==> WriteNumberStatus(old(Rows()), n, expected, status, Some(enabled)).Some?
      ensures Rows() == WriteNumberStatus(old(Rows()), n, expected, status, Some(enabled)).GetOr(old(Rows()))
    {
      if n !in numbers || numbers[n].status != expected {
        return false;
      }
      numbers := numbers[n := numbers[n].(status := status, enabled := enabled)];
      return true;
    }

    /** Refused for a held number; a number that is taken between read and write keeps what it was taken for. */
    method DisableNumber(n: NumberId, rival: Rival) returns (outcome: Outcome)
      modifies this`numbers
      ensures n !in old(numbers) ==> outcome == NotFound && numbers == old(numbers)
      ensures n in old(numbers) && !Idle(old(numbers)[n].status) ==>
                outcome == StateGuarded(old(numbers)[n].status) && numbers == old(numbers)
      ensures n in old(numbers) && Idle(old(numbers)[n].status) ==>
                var row := rival(old(numbers)[n]);
                && Rows() == WithRow(old(Rows()), n, if row.status == old(numbers)[n].status
                                                     then row.(status := NumberStatus.Disabled, enabled := false) else row)
                && outcome == (if row.status == old(numbers)[n].status then Done else StateGuarded(row.status))
                && (HoldInv(WithRow(old(Rows()), n, row)) ==> HoldInv(Rows()))
    {
      if n !in numbers {
        return NotFound;
      }
      var existing := numbers[n];
      if !Idle(existing.status) {
        return StateGuarded(existing.status);
      }
      numbers := numbers[n := rival(existing)];
      ghost var raced := Rows();
      var updated := UpdateNumberStatus(n, existing.status, NumberStatus.Disabled, false);
      if HoldInv(raced) && updated {
        assert NumberRow(raced, n);
        ManagedWriteKeeps(old(Rows()), n, existing.status, rival(existing), numbers[n]);
      }
      outcome := if updated then Done else StateGuarded(numbers[n].status);
    }

    /** Only a disabled number comes back, and it comes back offline. */
    method ReEnableNumber(n: NumberId, rival: Rival) returns (outcome: Outcome)
      modifies this`numbers
      ensures n !in old(numbers) ==> outcome == NotFound && numbers == old(numbers)
      ensures n in old(numbers) && !old(numbers)[n].status.Disabled? ==> outcome == NotDisabled && numbers == old(numbers)
      ensures n in old(numbers) && old(numbers)[n].status.Disabled? ==>
                var row := rival(old(numbers)[n]);
                && Rows() == WithRow(old(Rows()), n, if row.status.Disabled?
                                                     then row.(status := NumberStatus.Offline, enabled := true) else row)
                && outcome == (if row.status.Disabled? then Done else NotDisabled)
                && (HoldInv(WithRow(old(Rows()), n, row)) ==> HoldInv(Rows()))
    {
      if n !in numbers {
        return NotFound;
      }
      var existing := numbers[n];
      if !existing.status.Disabled? {
        return NotDisabled;
      }
      numbers := numbers[n := rival(existing)];
      ghost var raced := Rows();
      var updated := UpdateNumberStatus(n, NumberStatus.Disabled, NumberStatus.Offline, true);
      if HoldInv(raced) && updated {
        assert NumberRow(raced, n);
        ManagedWriteKeeps(old(Rows()), n, NumberStatus.Disabled, rival(existing), numbers[n]);
      }
      outcome := if updated then Done else NotDisabled;
    }

    /** A number moves to a known device of its own; its status stays as it is. */
    method MoveNumberToDevice(n: NumberId, target: DeviceId, rival: Rival) returns (outcome: Outcome)
      modifies this`numbers
      ensures n !in old(numbers) ==> outcome == NotFound && numbers == old(numbers)
      ensures n in old(numbers) && !Idle(old(numbers)[n].status) ==>
                outcome == StateGuarded(old(numbers)[n].status) && numbers == old(numbers)
      ensures n in old(numbers) && Idle(old(numbers)[n].status) && target !in devices ==>
                outcome == DeviceNotFound && numbers == old(numbers)
      ensures n in old(numbers) && Idle(old(numbers)[n].status) && target in devices ==>
                var row := rival(old(numbers)[n]);
                && Rows() == WithRow(old(Rows()), n, if row.status == old(numbers)[n].status then row.(deviceId := target) else row)
                && outcome == (if row.status == old(numbers)[n].status then Done else StateGuarded(row.status))
                && (HoldInv(WithRow(old(Rows()), n, row)) ==> HoldInv(Rows()))
    {
      if n !in numbers {
        return NotFound;
      }
      var existing := numbers[n];
      if !Idle(existing.status) {
        return StateGuarded(existing.status);
      }
      if target !in devices {
        return DeviceNotFound;
      }
      numbers := numbers[n := rival(existing)];
      ghost var raced := Rows();
      if numbers[n].status != existing.status {
        return StateGuarded(numbers[n].status);
      }
      numbers := numbers[n := numbers[n].(deviceId := target)];
      if HoldInv(raced) {
        assert NumberRow(raced, n);
        ManagedWriteKeeps(old(Rows()), n, existing.status, rival(existing), numbers[n]);
      }
      return Done;
    }

    /** A device's availability request for its own number. */
    method SetAvailability(n: NumberId, d: DeviceId, requested: Availability, hasActiveOffer: bool, now: Time, timeoutSeconds: nat,
                           rival: Rival) returns (outcome: Outcome)
      modifies this`numbers
      ensures n !in old(numbers) || old(numbers)[n].deviceId != d || d !in devices ==> outcome == NotFound && numbers == old(numbers)
      ensures n in old(numbers) && old(numbers)[n].deviceId == d && d in devices ==>
                var existing := old(numbers)[n];
                var row := rival(existing);
                match AvailabilityTarget(existing, devices[d], requested, hasActiveOffer, now, timeoutSeconds)
                case None => outcome == StateGuarded(existing.status) && numbers == old(numbers)
                case Some((status, enabled)) =>
                  && Rows() == WithRow(old(Rows()), n, if row.status == existing.status
                                                       then row.(status := status, enabled := enabled) else row)
                  && outcome == (if row.status == existing.status then Done else StateGuarded(row.status))
                  && (HoldInv(WithRow(old(Rows()), n, row)) ==> HoldInv(Rows()))
    {
      if n !in numbers || numbers[n].deviceId != d || d !in devices {
        return NotFound;
      }
      var existing := numbers[n];
      var target := AvailabilityTarget(existing, devices[d], requested, hasActiveOffer, now, timeoutSeconds);
      if target.None? {
        return StateGuarded(existing.status);
      }
      numbers := numbers[n := rival(existing)];
      ghost var raced := Rows();
      var updated := UpdateNumberStatus(n, existing.status, target.value.0, target.value.1);
      if HoldInv(raced) && updated {
        assert NumberRow(raced, n);
        ManagedWriteKeeps(old(Rows()), n, existing.status, rival(existing), numbers[n]);
      }
      outcome := if updated then Done else StateGuarded(numbers[n].status);
    }
  }
}
