/** The one write of a number's status that carries no expected status: an administrator's disable reads
    the number, checks that nobody holds it, and then writes whatever is there by now. Reading and
    landing are separate actions here, among the actions of all other workers. */
module UnguardedDisable {
  import opened Prelude
  import opened OrderStateMachine
  import opened Marketplace
  import opened HoldInvariant

  function Disable(db: Db, n: NumberId): Db {
    if n !in db.numbers then db
    else db.(numbers := db.numbers[n := db.numbers[n].(status := NumberStatus.Disabled, enabled := false)])
  }

  /** A landing keeps every hold if and only if nobody holds the number when it lands. */
  lemma LandingKeepsHoldsExactlyWhenIdle(db: Db, n: NumberId)
    requires HoldInv(db) && n in db.numbers
    ensures HoldInv(Disable(db, n)) <==> Idle(db.numbers[n].status)
    ensures Idle(db.numbers[n].status) ==> Extends(db, Disable(db, n))
  {
    assert NumberRow(db, n);
    if Idle(db.numbers[n].status) {
      EditIdleNumber(db, n, db.numbers[n].(status := NumberStatus.Disabled, enabled := false));
    } else {
      assert !NumberRow(Disable(db, n), n);
    }
  }

  // ---------------------------------------------------------------------------
  // Runs
  // ---------------------------------------------------------------------------

  /** `decided` are the numbers an administrator has found idle and is about to disable. */
  datatype Run = Run(market: State, decided: set<NumberId>)

  datatype Action = Worker(step: Step) | FindIdle(n: NumberId) | Land(n: NumberId)

  function Act(r: Run, action: Action): Run {
    match action
    case Worker(step) => r.(market := Next(r.market, step))
    case FindIdle(n) =>
      if n in r.market.db.numbers && Idle(r.market.db.numbers[n].status) then r.(decided := r.decided + {n}) else r
    case Land(n) =>
      if n !in r.decided then r
      else Run(r.market.(db := Disable(r.market.db, n)), r.decided - {n})
  }

  function ActAll(r: Run, actions: seq<Action>): Run
    decreases |actions|
  {
    if actions == [] then r else ActAll(Act(r, actions[0]), actions[1..])
  }

  /** With nobody in between, finding idle and landing make the one action that `Marketplace` models. */
  lemma UndisturbedDisableIsOneAction(r: Run, n: NumberId)
    requires n !in r.decided
    ensures Act(Act(r, FindIdle(n)), Land(n)) == Run(InventoryStep(r.market, AdminDisable(n)), r.decided)
  {
    assert r.decided + {n} - {n} == r.decided;
  }

  /** The action writes a number that has been taken since it was found idle. */
  predicate LandsOnAHold(r: Run, action: Action) {
    && action.Land? && action.n in r.decided && action.n in r.market.db.numbers
    && !Idle(r.market.db.numbers[action.n].status)
  }

  predicate EveryLandingIsIdle(r: Run, actions: seq<Action>)
    decreases |actions|
  {
    actions != [] ==> !LandsOnAHold(r, actions[0]) && EveryLandingIsIdle(Act(r, actions[0]), actions[1..])
  }

  ghost predicate HoldsThroughout(r: Run, actions: seq<Action>)
    decreases |actions|
  {
    HoldInv(r.market.db) && (actions != [] ==> HoldsThroughout(Act(r, actions[0]), actions[1..]))
  }

  lemma ActKeepsExactlyUnlessItLandsOnAHold(r: Run, action: Action)
    requires Inv(r.market)
    ensures !LandsOnAHold(r, action) ==> Inv(Act(r, action).market)
    ensures LandsOnAHold(r, action) ==> !HoldInv(Act(r, action).market.db)
  {
    match action
    case Worker(step) => NextKeeps(r.market, step);
    case FindIdle(_) =>
    case Land(n) =>
      if n in r.decided && n in r.market.db.numbers {
        LandingKeepsHoldsExactlyWhenIdle(r.market.db, n);
        if Idle(r.market.db.numbers[n].status) { RowsKeep(r.market, Disable(r.market.db, n)); }
      }
  }

  /** Whatever else happens in a run, its holds survive at every point if and only if every disable finds
      its number still idle when it lands. */
  lemma {:induction false} HoldsSurviveExactlyIdleLandings(r: Run, actions: seq<Action>)
    requires Inv(r.market)
    ensures HoldsThroughout(r, actions) <==> EveryLandingIsIdle(r, actions)
    decreases |actions|
  {
    if actions == [] {
    } else {
      ActKeepsExactlyUnlessItLandsOnAHold(r, actions[0]);
      if LandsOnAHold(r, actions[0]) {
        assert !HoldsThroughout(Act(r, actions[0]), actions[1..]);
      } else {
        HoldsSurviveExactlyIdleLandings(Act(r, actions[0]), actions[1..]);
      }
    }
  }

  // ---------------------------------------------------------------------------
  // A failing run
  // ---------------------------------------------------------------------------

  /** Number 0 comes online, an administrator finds it idle, order 0 takes it, and the disable lands. */
  const COMES_ONLINE := [Worker(WriteDevice(0, Device(Online, Some(0)))), Worker(RegisterNumber(0, 0)),
                         Worker(ReadForHeartbeat(0, 0, true, 0, 60)), Worker(WriteNumber(0))]
  const IS_TAKEN := [FindIdle(0), Worker(CreateOrder(0, 0, 0, 1000)), Worker(Step.Reserve(0)), Worker(Step.Activate(0, 0))]

  const DEVICES := map[0 := Device(Online, Some(0))]
  const REGISTERED := Db(map[], map[0 := PhoneNumber(0, NumberStatus.Offline, true, None)], DEVICES)
  const ONLINE := REGISTERED.(numbers := map[0 := PhoneNumber(0, Available, true, None)])
  const ORDERED := ONLINE.(orders := map[0 := Order(0, 0, Created, false, 0, 0, 1000, None)])
  const RESERVED := Db(map[0 := Order(0, 1, OrderStatus.Reserved, false, 0, 0, 1000, None)],
                       map[0 := PhoneNumber(0, NumberStatus.Reserved, true, Some(0))], DEVICES)
  const WAITING := Db(map[0 := Order(0, 2, WaitingSms, false, 0, 0, 1000, None)],
                      map[0 := PhoneNumber(0, Busy, true, Some(0))], DEVICES)

  lemma ActFour(r: Run, actions: seq<Action>)
    requires |actions| == 4
    ensures ActAll(r, actions) == Act(Act(Act(Act(r, actions[0]), actions[1]), actions[2]), actions[3])
  {
    var r1 := Act(r, actions[0]);
    assert actions[1..][1..] == actions[2..] && actions[2..][1..] == actions[3..] && actions[3..][1..] == [];
    assert ActAll(r1, actions[1..]) == ActAll(Act(r1, actions[1]), actions[2..]);
    assert ActAll(Act(r1, actions[1]), actions[2..]) == ActAll(Act(Act(r1, actions[1]), actions[2]), actions[3..]);
    var r3 := Act(Act(r1, actions[1]), actions[2]);
    assert ActAll(r3, actions[3..]) == ActAll(Act(r3, actions[3]), []);
  }

  function At(db: Db): State { State(db, map[], map[]) }

  lemma Registers()
    ensures Next(Next(Init(), WriteDevice(0, Device(Online, Some(0)))), RegisterNumber(0, 0)) == At(REGISTERED)
  {
    assert map[][0 := Device(Online, Some(0))] == DEVICES;
  }

  lemma ComesAlive()
    ensures Next(Next(At(REGISTERED), ReadForHeartbeat(0, 0, true, 0, 60)), WriteNumber(0)) == At(ONLINE)
  {
    var read := Next(At(REGISTERED), ReadForHeartbeat(0, 0, true, 0, 60));
    assert read == Advance(At(REGISTERED), 0, StatusWrite(0, NumberStatus.Offline, Available, None));
    assert InventoryStep(read, WriteNumber(0)).db == ONLINE;
  }

  lemma IsOrdered()
    ensures OrderStep(At(ONLINE), CreateOrder(0, 0, 0, 1000)) == At(ORDERED)
  {
  }

  lemma IsReserved()
    ensures OrderStep(At(ORDERED), Step.Reserve(0)) == At(RESERVED)
  {
  }

  lemma IsActivated()
    ensures OrderStep(At(RESERVED), Step.Activate(0, 0)) == At(WAITING)
  {
  }

  lemma ComesOnline()
    ensures ActAll(Run(Init(), {}), COMES_ONLINE) == Run(At(ONLINE), {})
  {
    ActFour(Run(Init(), {}), COMES_ONLINE);
    Registers();
    ComesAlive();
  }

  lemma IsTaken()
    ensures ActAll(Run(At(ONLINE), {}), IS_TAKEN) == Run(At(WAITING), {0})
  {
    ActFour(Run(At(ONLINE), {}), IS_TAKEN);
    assert Act(Run(At(ONLINE), {}), FindIdle(0)) == Run(At(ONLINE), {0});
    IsOrdered();
    IsReserved();
    IsActivated();
  }

  lemma LandsOnTheHold()
    ensures var db := Disable(WAITING, 0);
            db.numbers == map[0 := PhoneNumber(0, NumberStatus.Disabled, false, Some(0))] && !HoldInv(db)
  {
    assert !NumberRow(Disable(WAITING, 0), 0);
  }

  /** The run ends with a waiting order on a disabled number. */
  lemma DisableCanHitAHeldNumber()
    ensures var db := Act(ActAll(ActAll(Run(Init(), {}), COMES_ONLINE), IS_TAKEN), Land(0)).market.db;
            && db.orders == WAITING.orders
            && db.numbers == map[0 := PhoneNumber(0, NumberStatus.Disabled, false, Some(0))]
            && !HoldInv(db)
  {
    ComesOnline();
    IsTaken();
    LandsOnTheHold();
  }

  /** Such an order is stuck: every cancel, timeout and failure of it is refused and changes nothing, so
      the timeout job records a rejection under its constant key; and no SMS can settle it. */
  lemma OrderOnADisabledNumberIsStuck(db: Db, o: OrderId, op: Operation, config: Config, now: Time)
    requires Joined(db, o) && OrderOk(db.orders[o]) && (db.orders[o].status.Reserved? || db.orders[o].status.WaitingSms?)
    requires db.numbers[db.orders[o].numberId].status.Disabled? && op.orderId == o
    ensures var effect := RunEffect(db, op, LoadContext(db, o), config, now);
            effect.Settled? && effect.db == db && effect.response.Refused?
    ensures Decide(db.orders[o].status, NumberStatus.Disabled, db.orders[o].otpReceived, Command.Succeed).Reject?
  {
    var c := LoadContext(db, o).value;
    if !op.CompleteOrder? {
      AppliedExactlyWhenLegal(c.orderStatus, c.numberStatus, c.otpReceived, CommandOf(op, c, config, now));
    }
    AppliedExactlyWhenLegal(c.orderStatus, c.numberStatus, c.otpReceived, Command.Succeed);
  }
}
