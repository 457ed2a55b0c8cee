/** Earnings, payouts and the append-only ledger: the decisions, and the transactions that apply them. */
module Books {
  import opened Prelude

  type PartnerId = nat
  type EarningId = nat
  type PayoutId = nat
  type OrderId = nat
  type AttemptId = nat

  const MAX_SAFE_INTEGER: nat := 0x1F_FFFF_FFFF_FFFF
  const PAYOUT_MINIMUM_IDR: nat := 1000

  // ---------------------------------------------------------------------------
  // Rows. Earnings and payouts are never deleted; a row's id is its position.
  // ---------------------------------------------------------------------------

  datatype EarningStatus = Pending | Available | Requested | Paid | Reversed

  datatype Earning = Earning(partner: PartnerId, orderId: OrderId, amount: nat, status: EarningStatus, availableAt: Time)

  datatype PayoutStatus = Requested | Approved | Processing | Paid | Rejected | Failed

  datatype Allocation = Allocation(earningId: EarningId, amount: nat)

  /** `released` stamps all of a payout's allocations together. */
  datatype Payout = Payout(
    partner: PartnerId, status: PayoutStatus, amount: nat, allocations: seq<Allocation>, released: bool,
    paymentReference: Option<string>)

  datatype Bucket = Payable | PendingBucket | AvailableBucket | LockedBucket | PaidBucket | ReversedBucket

  datatype EventKey =
    | OrderSuccess(orderId: OrderId)
    | HoldRelease(earningId: EarningId)
    | EarningReversal(earningId: EarningId)
    | PayoutLock(payoutId: PayoutId)
    | PayoutPaid(payoutId: PayoutId)
    | PayoutUnlock(payoutId: PayoutId)

  datatype Entry = Entry(bucket: Bucket, amount: int)

  datatype Transaction = Transaction(partner: PartnerId, key: EventKey, entries: seq<Entry>)

  datatype Tables = Tables(earnings: seq<Earning>, payouts: seq<Payout>, ledger: seq<Transaction>)

  function Transfer(partner: PartnerId, key: EventKey, from: Bucket, to: Bucket, amount: nat): Transaction {
    Transaction(partner, key, [Entry(from, -(amount as int)), Entry(to, amount)])
  }

  /** Appending is idempotent on the event key. */
  function Append(ledger: seq<Transaction>, t: Transaction): seq<Transaction> {
    if exists i :: 0 <= i < |ledger| && ledger[i].key == t.key then ledger else ledger + [t]
  }

  // ---------------------------------------------------------------------------
  // Decisions
  // ---------------------------------------------------------------------------

  datatype HoldDecision = ReleaseIt | AlreadyAvailable | HoldRejected(code: HoldRejection)
  datatype HoldRejection = HoldNotElapsed | DisputeActive | InvalidHoldState

  function DecideHoldRelease(earning: Earning, now: Time, hasActiveDispute: bool): HoldDecision {
    if earning.status.Available? then AlreadyAvailable
    else if !earning.status.Pending? then HoldRejected(InvalidHoldState)
    else if hasActiveDispute then HoldRejected(DisputeActive)
    else if now < earning.availableAt then HoldRejected(HoldNotElapsed)
    else ReleaseIt
  }

  datatype ReversalDecision =
    | ReverseFrom(bucket: Bucket)
    | AlreadyReversed
    | ReconciliationRequired
    | ReversalRejected(code: ReversalRejection)
  datatype ReversalRejection = InvalidReversalState | MissingReversalReason

  /** A reason is passed as the length of its trimmed text. */
  function DecideReversal(earning: Earning, trimmedReason: nat): ReversalDecision {
    match earning.status
    case Reversed => AlreadyReversed
    case Paid => ReconciliationRequired
    case Requested => ReversalRejected(InvalidReversalState)
    case _ =>
      if trimmedReason == 0 then ReversalRejected(MissingReversalReason)
      else ReverseFrom(if earning.status.Pending? then PendingBucket else AvailableBucket)
  }

  datatype Selected = Selected(id: EarningId, earning: Earning)

  datatype RequestDecision = Lock(amount: nat, allocations: seq<Allocation>) | RequestRejected(code: RequestRejection) | AmountThrows
  datatype RequestRejection = EmptySelection | DuplicateEarning | EarningNotAvailable | BelowMinimum

  function Total(allocations: seq<Allocation>): nat {
    if allocations == [] then 0 else Total(allocations[..|allocations| - 1]) + allocations[|allocations| - 1].amount
  }

  function AllocationsOf(selection: seq<Selected>): (r: seq<Allocation>)
    ensures |r| == |selection|
    ensures forall i :: 0 <= i < |r| ==> r[i] == Allocation(selection[i].id, selection[i].earning.amount)
  {
    seq(|selection|, i requires 0 <= i < |selection| => Allocation(selection[i].id, selection[i].earning.amount))
  }

  /** The first fault of a selection, read from the left. */
  function SelectionFault(selection: seq<Selected>, seen: set<EarningId>): Option<RequestRejection>
    decreases |selection|
  {
    if selection == [] then None
    else if selection[0].id in seen then Some(DuplicateEarning)
    else if !selection[0].earning.status.Available? then Some(EarningNotAvailable)
    else SelectionFault(selection[1..], seen + {selection[0].id})
  }

  function DecideRequest(selection: seq<Selected>, minimum: Option<nat>): RequestDecision {
    var fault := SelectionFault(selection, {});
    var allocations := AllocationsOf(selection);
    if selection == [] then RequestRejected(EmptySelection)
    else if fault.Some? then RequestRejected(fault.value)
    else if Total(allocations) > MAX_SAFE_INTEGER then AmountThrows
    else if Total(allocations) < minimum.GetOr(PAYOUT_MINIMUM_IDR) then RequestRejected(BelowMinimum)
    else Lock(Total(allocations), allocations)
  }

  /** References and reasons are passed trimmed. */
  datatype PayoutCommand = Approve | Process | MarkPaid(reference: string) | Reject(reason: string) | Fail(reason: string)

  datatype PayoutDecision =
    | Move(next: PayoutStatus, earningNext: Option<EarningStatus>, reference: Option<string>)
    | AlreadyThere
    | PayoutRejected(code: PayoutRejection)
  datatype PayoutRejection =
    | IllegalTransition
    | TerminalStateConflict
    | MissingReason
    | MissingPaymentReference
    | PaymentReferenceConflict

  function Target(command: PayoutCommand): PayoutStatus {
    match command
    case Approve => Approved
    case Process => Processing
    case MarkPaid(_) => PayoutStatus.Paid
    case Reject(_) => Rejected
    case Fail(_) => Failed
  }

  predicate IsTerminal(status: PayoutStatus) { status in {PayoutStatus.Paid, Rejected, Failed} }

  function ValidSources(target: PayoutStatus): set<PayoutStatus> {
    match target
    case Requested => {}
    case Approved => {PayoutStatus.Requested}
    case Processing => {Approved}
    case Paid => {Processing}
    case Rejected => {PayoutStatus.Requested, Approved, Processing}
    case Failed => {PayoutStatus.Requested, Approved, Processing}
  }

  function DecidePayout(payout: Payout, command: PayoutCommand): PayoutDecision {
    var target := Target(command);
    if payout.status == target then
      if command.MarkPaid? && command.reference == "" then PayoutRejected(MissingPaymentReference)
      else if command.MarkPaid? && payout.paymentReference != Some(command.reference) then PayoutRejected(PaymentReferenceConflict)
      else AlreadyThere
    else if IsTerminal(payout.status) then PayoutRejected(TerminalStateConflict)
    else if payout.status !in ValidSources(target) then PayoutRejected(IllegalTransition)
    else
      match command
      case Reject(reason) => if reason == "" then PayoutRejected(MissingReason) else Move(target, Some(Available), None)
      case Fail(reason) => if reason == "" then PayoutRejected(MissingReason) else Move(target, Some(Available), None)
      case MarkPaid(reference) =>
        if reference == "" then PayoutRejected(MissingPaymentReference)
        else Move(target, Some(EarningStatus.Paid), Some(reference))
      case _ => Move(target, None, None)
  }

  // ---------------------------------------------------------------------------
  // Transactions
  // ---------------------------------------------------------------------------

  predicate Matches(earnings: seq<Earning>, e: EarningId, partner: PartnerId, expected: EarningStatus) {
    e < |earnings| && earnings[e].partner == partner && earnings[e].status == expected
  }

  /** Compare-and-set of one earning; `None` when no row matched. */
  function CasEarning(earnings: seq<Earning>, e: EarningId, partner: PartnerId, expected: EarningStatus, next: EarningStatus)
    : Option<seq<Earning>>
  {
    if Matches(earnings, e, partner, expected) then Some(earnings[e := earnings[e].(status := next)]) else None
  }

  function ReleaseHold(t: Tables, e: EarningId, partner: PartnerId, amount: nat): Option<Tables> {
    match CasEarning(t.earnings, e, partner, Pending, Available)
    case None => None
    case Some(earnings) =>
      Some(t.(earnings := earnings,
              ledger := Append(t.ledger, Transfer(partner, HoldRelease(e), PendingBucket, AvailableBucket, amount))))
  }

  function ReverseEarning(t: Tables, e: EarningId, partner: PartnerId, amount: nat, expected: EarningStatus, from: Bucket): Option<Tables> {
    match CasEarning(t.earnings, e, partner, expected, Reversed)
    case None => None
    case Some(earnings) =>
      Some(t.(earnings := earnings,
              ledger := Append(t.ledger, Transfer(partner, EarningReversal(e), from, ReversedBucket, amount))))
  }

  /** Every allocated earning has to win its compare-and-set. */
  function LockAll(earnings: seq<Earning>, allocations: seq<Allocation>, partner: PartnerId): Option<seq<Earning>>
    decreases |allocations|
  {
    if allocations == [] then Some(earnings)
    else
      match LockAll(earnings, allocations[..|allocations| - 1], partner)
      case None => None
      case Some(locked) => CasEarning(locked, allocations[|allocations| - 1].earningId, partner, Available, EarningStatus.Requested)
  }

  /** The partial unique index on unreleased allocations. */
  predicate Unallocated(payouts: seq<Payout>, e: EarningId) {
    forall p :: 0 <= p < |payouts| && !payouts[p].released ==> forall a <- payouts[p].allocations :: a.earningId != e
  }

  function RequestPayout(t: Tables, partner: PartnerId, amount: nat, allocations: seq<Allocation>): Option<Tables> {
    match LockAll(t.earnings, allocations, partner)
    case None => None
    case Some(earnings) =>
      if exists a <- allocations :: !Unallocated(t.payouts, a.earningId) then None
      else
        Some(Tables(earnings,
                    t.payouts + [Payout(partner, PayoutStatus.Requested, amount, allocations, false, None)],
                    Append(t.ledger, Transfer(partner, PayoutLock(|t.payouts|), AvailableBucket, LockedBucket, amount))))
  }

  /** Moves the allocated earnings on; the result of each compare-and-set is ignored. */
  function MoveAll(earnings: seq<Earning>, allocations: seq<Allocation>, partner: PartnerId, next: EarningStatus): seq<Earning>
    decreases |allocations|
  {
    if allocations == [] then earnings
    else
      var moved := MoveAll(earnings, allocations[..|allocations| - 1], partner, next);
      CasEarning(moved, allocations[|allocations| - 1].earningId, partner, EarningStatus.Requested, next).GetOr(moved)
  }

  datatype ReviewResult = Applied(tables: Tables) | ReviewConflict | DuplicateReference

  predicate ReferenceTaken(payouts: seq<Payout>, p: PayoutId, reference: Option<string>) {
    reference.Some? && exists q :: 0 <= q < |payouts| && q != p && payouts[q].paymentReference == reference
  }

  function ReviewPayout(t: Tables, p: PayoutId, read: Payout, d: PayoutDecision): ReviewResult
    requires d.Move?
  {
    if p >= |t.payouts| || t.payouts[p].partner != read.partner || t.payouts[p].status != read.status then ReviewConflict
    else if ReferenceTaken(t.payouts, p, d.reference) then DuplicateReference
    else
      var row := t.payouts[p];
      var row' := row.(status := d.next,
                       paymentReference := if d.reference.Some? then d.reference else row.paymentReference,
                       released := row.released || d.earningNext == Some(Available));
      var earnings := if d.earningNext.Some? then MoveAll(t.earnings, read.allocations, read.partner, d.earningNext.value) else t.earnings;
      var ledger :=
        if d.earningNext == Some(Available) then Append(t.ledger, Transfer(read.partner, PayoutUnlock(p), LockedBucket, AvailableBucket, read.amount))
        else if d.earningNext == Some(EarningStatus.Paid) then Append(t.ledger, Transfer(read.partner, PayoutPaid(p), LockedBucket, PaidBucket, read.amount))
        else t.ledger;
      Applied(Tables(earnings, t.payouts[p := row'], ledger))
  }

  /** The first success of an order creates its one earning; a second one rolls back on the unique order. */
  function RecordSuccess(t: Tables, o: OrderId, partner: PartnerId, amount: nat, availableAt: Time): Option<Tables> {
    if amount == 0 || amount > MAX_SAFE_INTEGER || exists e :: 0 <= e < |t.earnings| && t.earnings[e].orderId == o then None
    else
      Some(t.(earnings := t.earnings + [Earning(partner, o, amount, Pending, availableAt)],
              ledger := Append(t.ledger, Transfer(partner, OrderSuccess(o), Payable, PendingBucket, amount))))
  }

  // ---------------------------------------------------------------------------
  // Interleaved services: what a service read may be stale when it writes
  // ---------------------------------------------------------------------------

  datatype Attempt =
    | Releasing(e: EarningId, read: Earning)
    | Reversing(e: EarningId, read: Earning, from: Bucket)
    | Selecting(partner: PartnerId, ids: seq<EarningId>, chosen: seq<Selected>, minimum: Option<nat>)
    | Locking(partner: PartnerId, amount: nat, allocations: seq<Allocation>)
    | Reviewing(p: PayoutId, payout: Payout, decision: PayoutDecision)

  datatype State = State(tables: Tables, attempts: map<AttemptId, Attempt>)

  datatype Step =
    | OrderSucceeds(o: OrderId, partner: PartnerId, amount: nat, availableAt: Time)
    | ReadForRelease(a: AttemptId, e: EarningId, partner: PartnerId, now: Time, hasActiveDispute: bool)
    | ReadForReversal(a: AttemptId, e: EarningId, partner: PartnerId, trimmedReason: nat)
    | StartRequest(a: AttemptId, partner: PartnerId, ids: seq<EarningId>, minimum: Option<nat>)
    | ReadSelected(a: AttemptId)
    | ReadForReview(a: AttemptId, p: PayoutId, command: PayoutCommand)
    | Commit(a: AttemptId)
    | Crash(a: AttemptId)

  function Put(s: State, a: AttemptId, attempt: Attempt): State {
    if a in s.attempts then s else s.(attempts := s.attempts[a := attempt])
  }

  function Retire(s: State, a: AttemptId): State { s.(attempts := s.attempts - {a}) }

  function Written(s: State, a: AttemptId, tables: Option<Tables>): State {
    if tables.None? then Retire(s, a) else Retire(s, a).(tables := tables.value)
  }

  /** Tenant-scoped read. */
  function FindEarning(t: Tables, e: EarningId, partner: PartnerId): Option<Earning> {
    if e < |t.earnings| && t.earnings[e].partner == partner then Some(t.earnings[e]) else None
  }

  /** Reads the next selected earning, or decides once all of them have been read. */
  function SelectNext(s: State, a: AttemptId): State
    requires a in s.attempts && s.attempts[a].Selecting?
  {
    var Selecting(partner, ids, chosen, minimum) := s.attempts[a];
    if ids != [] then
      var found := FindEarning(s.tables, ids[0], partner);
      if found.None? then Retire(s, a)
      else s.(attempts := s.attempts[a := Selecting(partner, ids[1..], chosen + [Selected(ids[0], found.value)], minimum)])
    else
      match DecideRequest(chosen, minimum)
      case Lock(amount, allocations) => s.(attempts := s.attempts[a := Locking(partner, amount, allocations)])
      case _ => Retire(s, a)
  }

  function CommitAttempt(s: State, a: AttemptId): State
    requires a in s.attempts
  {
    match s.attempts[a]
    case Releasing(e, read) => Written(s, a, ReleaseHold(s.tables, e, read.partner, read.amount))
    case Reversing(e, read, from) => Written(s, a, ReverseEarning(s.tables, e, read.partner, read.amount, read.status, from))
    case Selecting(_, _, _, _) => s
    case Locking(partner, amount, allocations) => Written(s, a, RequestPayout(s.tables, partner, amount, allocations))
    case Reviewing(p, payout, decision) =>
      if !decision.Move? then Retire(s, a)
      else
        match ReviewPayout(s.tables, p, payout, decision)
        case Applied(tables) => Written(s, a, Some(tables))
        case _ => Retire(s, a)
  }

  function Next(s: State, step: Step): State {
    match step
    case OrderSucceeds(o, partner, amount, availableAt) =>
      (match RecordSuccess(s.tables, o, partner, amount, availableAt)
       case None => s
       case Some(tables) => s.(tables := tables))
    case ReadForRelease(a, e, partner, now, hasActiveDispute) =>
      var found := FindEarning(s.tables, e, partner);
      if found.None? || !DecideHoldRelease(found.value, now, hasActiveDispute).ReleaseIt? then s
      else Put(s, a, Releasing(e, found.value))
    case ReadForReversal(a, e, partner, trimmedReason) =>
      var found := FindEarning(s.tables, e, partner);
      if found.None? || !DecideReversal(found.value, trimmedReason).ReverseFrom? then s
      else Put(s, a, Reversing(e, found.value, DecideReversal(found.value, trimmedReason).bucket))
    case StartRequest(a, partner, ids, minimum) => Put(s, a, Selecting(partner, ids, [], minimum))
    case ReadSelected(a) =>
      if a !in s.attempts || !s.attempts[a].Selecting? then s else SelectNext(s, a)
    case ReadForReview(a, p, command) =>
      if p >= |s.tables.payouts| || !DecidePayout(s.tables.payouts[p], command).Move? then s
      else Put(s, a, Reviewing(p, s.tables.payouts[p], DecidePayout(s.tables.payouts[p], command)))
    case Commit(a) => if a !in s.attempts then s else CommitAttempt(s, a)
    case Crash(a) => Retire(s, a)
  }

  function Init(): State { State(Tables([], [], []), map[]) }

  function Exec(s: State, steps: seq<Step>): State
    decreases |steps|
  {
    if steps == [] then s else Exec(Next(s, steps[0]), steps[1..])
  }
}
