/** What holds of the books in every reachable state, whatever the interleaving of the services. */
module BooksGuarantees {
  import opened Prelude
  import opened Books
  import opened BooksInvariant

  // ---------------------------------------------------------------------------
  // What a request decides
  // ---------------------------------------------------------------------------

  predicate DistinctIds(selection: seq<Selected>) {
    forall i, j :: 0 <= i < j < |selection| ==> selection[i].id != selection[j].id
  }

  predicate Faulty(selection: seq<Selected>, i: nat, seen: set<EarningId>)
    requires i < |selection|
  {
    || selection[i].id in seen
    || (exists j :: 0 <= j < i && selection[j].id == selection[i].id)
    || !selection[i].earning.status.Available?
  }

  /** The scan reports a fault exactly when some item repeats an earlier one or is not available. */
  lemma {:induction false} FaultReportedExactly(selection: seq<Selected>, seen: set<EarningId>)
    ensures SelectionFault(selection, seen).None? <==> forall i :: 0 <= i < |selection| ==> !Faulty(selection, i, seen)
    decreases |selection|
  {
    if selection == [] {
    } else {
      var rest := selection[1..];
      var seen' := seen + {selection[0].id};
      FaultReportedExactly(rest, seen');
      assert !Faulty(selection, 0, seen) <==> selection[0].id !in seen && selection[0].earning.status.Available?;
      forall i | 0 <= i < |rest| ensures Faulty(rest, i, seen') <==> Faulty(selection, i + 1, seen) {
        if exists j :: 0 <= j < i + 1 && selection[j].id == selection[i + 1].id {
          var j :| 0 <= j < i + 1 && selection[j].id == selection[i + 1].id;
          if j > 0 { assert rest[j - 1].id == rest[i].id; }
        }
        if exists j :: 0 <= j < i && rest[j].id == rest[i].id {
          var j :| 0 <= j < i && rest[j].id == rest[i].id;
          assert selection[j + 1].id == selection[i + 1].id;
        }
      }
      if forall i :: 0 <= i < |rest| ==> !Faulty(rest, i, seen') {
        forall i | 1 <= i < |selection| ensures !Faulty(selection, i, seen) {
          assert !Faulty(rest, i - 1, seen');
        }
      }
    }
  }

  /** A request goes ahead exactly for a non-empty selection of distinct, available earnings whose sum
      is at least the minimum and still a safe integer; it asks for exactly that sum. */
  lemma RequestDecidedExactly(selection: seq<Selected>, minimum: Option<nat>)
    ensures DecideRequest(selection, minimum).Lock? <==>
              && selection != [] && DistinctIds(selection)
              && (forall c <- selection :: c.earning.status.Available?)
              && minimum.GetOr(1000) <= Total(AllocationsOf(selection)) <= 0x1F_FFFF_FFFF_FFFF
    ensures DecideRequest(selection, minimum).Lock? ==>
              DecideRequest(selection, minimum) == Lock(Total(AllocationsOf(selection)), AllocationsOf(selection))
  {
    FaultReportedExactly(selection, {});
    if SelectionFault(selection, {}).None? {
      forall c <- selection ensures c.earning.status.Available? {
        var i :| 0 <= i < |selection| && selection[i] == c;
        assert !Faulty(selection, i, {});
      }
      forall i, j | 0 <= i < j < |selection| ensures selection[i].id != selection[j].id {
        assert !Faulty(selection, j, {});
      }
    }
  }

  // ---------------------------------------------------------------------------
  // What releases, reversals and reviews decide
  // ---------------------------------------------------------------------------

  /** A hold is released exactly for a pending, undisputed earning whose hold has elapsed; otherwise the
      answer names what stands in the way. */
  lemma HoldReleasedExactlyWhen(earning: Earning, now: Time, hasActiveDispute: bool)
    ensures var d := DecideHoldRelease(earning, now, hasActiveDispute);
            && (d.ReleaseIt? <==> earning.status == Pending && !hasActiveDispute && earning.availableAt <= now)
            && (d.AlreadyAvailable? <==> earning.status == Available)
            && (d == HoldRejected(DisputeActive) <==> earning.status == Pending && hasActiveDispute)
            && (d == HoldRejected(HoldNotElapsed) <==> earning.status == Pending && !hasActiveDispute && now < earning.availableAt)
            && (d == HoldRejected(InvalidHoldState) <==> earning.status in {EarningStatus.Requested, EarningStatus.Paid, Reversed})
  {
  }

  /** An earning is reversed exactly while it is pending or available, for a stated reason, and out of the
      bucket it is in; money already paid needs reconciliation. */
  lemma ReversedExactlyWhen(earning: Earning, trimmedReason: nat)
    ensures var d := DecideReversal(earning, trimmedReason);
            && (d.ReverseFrom? <==> earning.status in {Pending, Available} && trimmedReason > 0)
            && (d.ReverseFrom? ==> d.bucket == BucketOf(earning.status))
            && (d.AlreadyReversed? <==> earning.status == Reversed)
            && (d.ReconciliationRequired? <==> earning.status == EarningStatus.Paid)
            && (d == ReversalRejected(InvalidReversalState) <==> earning.status == EarningStatus.Requested)
            && (d == ReversalRejected(MissingReversalReason) <==> earning.status in {Pending, Available} && trimmedReason == 0)
  {
  }

  /** A review command goes through exactly along the workflow and with the text it needs, and moves the
      money exactly when the payout is settled or given back. */
  lemma ReviewDecidedExactly(payout: Payout, command: PayoutCommand)
    ensures var d := DecidePayout(payout, command);
            var open := payout.status.Requested? || payout.status.Approved? || payout.status.Processing?;
            match command
            case Approve =>
              && (d.Move? <==> payout.status.Requested?) && (d.Move? ==> d == Move(Approved, None, None))
              && (d.AlreadyThere? <==> payout.status.Approved?)
            case Process =>
              && (d.Move? <==> payout.status.Approved?) && (d.Move? ==> d == Move(Processing, None, None))
              && (d.AlreadyThere? <==> payout.status.Processing?)
            case MarkPaid(reference) =>
              && (d.Move? <==> payout.status.Processing? && reference != "")
              && (d.Move? ==> d == Move(PayoutStatus.Paid, Some(EarningStatus.Paid), Some(reference)))
              && (d.AlreadyThere? <==> payout.status.Paid? && reference != "" && payout.paymentReference == Some(reference))
            case Reject(reason) =>
              && (d.Move? <==> open && reason != "") && (d.Move? ==> d == Move(Rejected, Some(Available), None))
              && (d.AlreadyThere? <==> payout.status.Rejected?)
            case Fail(reason) =>
              && (d.Move? <==> open && reason != "") && (d.Move? ==> d == Move(Failed, Some(Available), None))
              && (d.AlreadyThere? <==> payout.status.Failed?)
  {
  }

  /** What a refused review command is told. */
  lemma ReviewRefusedExactly(payout: Payout, command: PayoutCommand)
    ensures var d := DecidePayout(payout, command);
            var open := payout.status.Requested? || payout.status.Approved? || payout.status.Processing?;
            && (d == PayoutRejected(TerminalStateConflict) <==> !open && payout.status != Target(command))
            && (d == PayoutRejected(MissingReason) <==>
                  open && ((command.Reject? && command.reason == "") || (command.Fail? && command.reason == "")))
            && (d == PayoutRejected(MissingPaymentReference) <==>
                  command.MarkPaid? && command.reference == "" && (payout.status.Processing? || payout.status.Paid?))
            && (d == PayoutRejected(PaymentReferenceConflict) <==>
                  command.MarkPaid? && command.reference != "" && payout.status.Paid? && payout.paymentReference != Some(command.reference))
            && (d == PayoutRejected(IllegalTransition) <==>
                  open && ((command.Approve? && !payout.status.Requested? && !payout.status.Approved?)
                           || (command.Process? && payout.status.Requested?)
                           || (command.MarkPaid? && !payout.status.Processing?)))
  {
  }

  // ---------------------------------------------------------------------------
  // The invariant over runs
  // ---------------------------------------------------------------------------

  predicate AttemptOk(t: Tables, attempt: Attempt) {
    match attempt
    case Releasing(e, read) =>
      e < |t.earnings| && SameEarning(read, t.earnings[e]) && read.status.Pending?
    case Reversing(e, read, from) =>
      e < |t.earnings| && SameEarning(read, t.earnings[e]) && read.status in {Pending, Available} && from == BucketOf(read.status)
    case Selecting(partner, _, chosen, _) =>
      forall c <- chosen :: c.id < |t.earnings| && SameEarning(c.earning, t.earnings[c.id]) && c.earning.partner == partner
    case Locking(partner, amount, allocations) => LockOk(t, partner, amount, allocations)
    case Reviewing(p, payout, d) => p < |t.payouts| && SamePayout(payout, t.payouts[p]) && MoveOk(payout.status, d)
  }

  ghost predicate Inv(s: State) {
    BooksInv(s.tables) && forall a <- s.attempts :: AttemptOk(s.tables, s.attempts[a])
  }

  ghost predicate Preserves(s: State, after: State) { Inv(after) && Extends(s.tables, after.tables) }

  lemma AttemptStable(before: Tables, after: Tables, attempt: Attempt)
    requires Extends(before, after) && AttemptOk(before, attempt)
    ensures AttemptOk(after, attempt)
  {
    match attempt
    case Releasing(e, _) => assert KeptEarning(before, after, e);
    case Reversing(e, _, _) => assert KeptEarning(before, after, e);
    case Selecting(partner, _, chosen, _) =>
      forall c <- chosen ensures c.id < |after.earnings| && SameEarning(c.earning, after.earnings[c.id]) {
        assert KeptEarning(before, after, c.id);
      }
    case Locking(partner, amount, allocations) =>
      forall a <- allocations ensures a.earningId < |after.earnings| && after.earnings[a.earningId].partner == partner
                                      && after.earnings[a.earningId].amount == a.amount {
        assert KeptEarning(before, after, a.earningId);
      }
    case Reviewing(p, _, _) => assert KeptPayout(before, after, p);
  }

  lemma ExtendsReflexive(t: Tables)
    ensures Extends(t, t)
  {
  }

  lemma ExtendsTransitive(x: Tables, y: Tables, z: Tables)
    requires Extends(x, y) && Extends(y, z)
    ensures Extends(x, z)
  {
    forall e: EarningId ensures KeptEarning(x, z, e) { assert KeptEarning(x, y, e) && KeptEarning(y, z, e); }
    forall p: PayoutId ensures KeptPayout(x, z, p) { assert KeptPayout(x, y, p) && KeptPayout(y, z, p); }
  }

  lemma TablesKeep(s: State, tables: Tables)
    requires Inv(s) && BooksInv(tables) && Extends(s.tables, tables)
    ensures Preserves(s, s.(tables := tables))
  {
    forall a <- s.attempts ensures AttemptOk(tables, s.attempts[a]) {
      AttemptStable(s.tables, tables, s.attempts[a]);
    }
  }

  lemma WrittenKeeps(s: State, a: AttemptId, tables: Option<Tables>)
    requires Inv(s) && (tables.Some? ==> BooksInv(tables.value) && Extends(s.tables, tables.value))
    ensures Preserves(s, Written(s, a, tables))
  {
    ExtendsReflexive(s.tables);
    if tables.Some? { TablesKeep(Retire(s, a), tables.value); }
  }

  lemma PutKeeps(s: State, a: AttemptId, attempt: Attempt)
    requires Inv(s) && AttemptOk(s.tables, attempt)
    ensures Preserves(s, Put(s, a, attempt)) && Preserves(s, s.(attempts := s.attempts[a := attempt]))
  {
    ExtendsReflexive(s.tables);
  }

  lemma SelectNextKeeps(s: State, a: AttemptId)
    requires Inv(s) && a in s.attempts && s.attempts[a].Selecting?
    ensures Preserves(s, SelectNext(s, a))
  {
    ExtendsReflexive(s.tables);
    var Selecting(partner, ids, chosen, minimum) := s.attempts[a];
    assert AttemptOk(s.tables, s.attempts[a]);
    if ids != [] {
      var found := FindEarning(s.tables, ids[0], partner);
      if found.Some? {
        PutKeeps(s, a, Selecting(partner, ids[1..], chosen + [Selected(ids[0], found.value)], minimum));
      }
    } else if DecideRequest(chosen, minimum).Lock? {
      RequestDecidedExactly(chosen, minimum);
      var allocations := AllocationsOf(chosen);
      forall x <- allocations ensures x.earningId < |s.tables.earnings| && s.tables.earnings[x.earningId].partner == partner
                                      && s.tables.earnings[x.earningId].amount == x.amount {
        var i :| 0 <= i < |allocations| && allocations[i] == x;
        assert chosen[i] in chosen;
      }
      PutKeeps(s, a, Locking(partner, Total(allocations), allocations));
    }
  }

  /** A release or reversal that wins its compare-and-set appends a fresh event for exactly that earning. */
  lemma SingleMoveKeeps(t: Tables, e: EarningId, read: Earning, next: EarningStatus)
    requires BooksInv(t) && e < |t.earnings| && SameEarning(read, t.earnings[e]) && t.earnings[e].status == read.status
    requires read.status in {Pending, Available} && (next.Reversed? || (next.Available? && read.status.Pending?))
    ensures var after := if next.Reversed? then ReverseEarning(t, e, read.partner, read.amount, read.status, BucketOf(read.status))
                         else ReleaseHold(t, e, read.partner, read.amount);
            && after.Some? && BooksInv(after.value) && Extends(t, after.value)
            && after.value.earnings == t.earnings[e := t.earnings[e].(status := next)] && after.value.payouts == t.payouts
            && after.value.ledger == t.ledger + [Transfer(t.earnings[e].partner, if next.Reversed? then EarningReversal(e) else HoldRelease(e),
                                                         BucketOf(read.status), BucketOf(next), t.earnings[e].amount)]
  {
    MoveFreeEarning(t, e, next, if next.Reversed? then EarningReversal(e) else HoldRelease(e));
  }

  lemma CommitKeeps(s: State, a: AttemptId)
    requires Inv(s) && a in s.attempts
    ensures Preserves(s, CommitAttempt(s, a))
  {
    ExtendsReflexive(s.tables);
    var t := s.tables;
    assert AttemptOk(t, s.attempts[a]);
    match s.attempts[a]
    case Releasing(e, read) =>
      if t.earnings[e].status == read.status { SingleMoveKeeps(t, e, read, Available); }
      WrittenKeeps(s, a, ReleaseHold(t, e, read.partner, read.amount));
    case Reversing(e, read, from) =>
      if t.earnings[e].status == read.status { SingleMoveKeeps(t, e, read, Reversed); }
      WrittenKeeps(s, a, ReverseEarning(t, e, read.partner, read.amount, read.status, from));
    case Selecting(_, _, _, _) =>
    case Locking(partner, amount, allocations) =>
      if RequestPayout(t, partner, amount, allocations).Some? { RequestKeeps(t, partner, amount, allocations); }
      WrittenKeeps(s, a, RequestPayout(t, partner, amount, allocations));
    case Reviewing(p, payout, d) =>
      var r := ReviewPayout(t, p, payout, d);
      if r.Applied? { ReviewKeeps(t, p, payout, d); WrittenKeeps(s, a, Some(r.tables)); }
      WrittenKeeps(s, a, None);
  }

  lemma NextKeeps(s: State, step: Step)
    requires Inv(s)
    ensures Preserves(s, Next(s, step))
  {
    ExtendsReflexive(s.tables);
    match step
    case OrderSucceeds(o, partner, amount, availableAt) =>
      if RecordSuccess(s.tables, o, partner, amount, availableAt).Some? {
        SuccessKeeps(s.tables, o, partner, amount, availableAt);
        TablesKeep(s, RecordSuccess(s.tables, o, partner, amount, availableAt).value);
      }
    case ReadForRelease(a, e, partner, now, hasActiveDispute) =>
    case ReadForReversal(a, e, partner, trimmedReason) =>
    case StartRequest(a, partner, ids, minimum) => PutKeeps(s, a, Selecting(partner, ids, [], minimum));
    case ReadSelected(a) => if a in s.attempts && s.attempts[a].Selecting? { SelectNextKeeps(s, a); }
    case ReadForReview(a, p, command) =>
      if p < |s.tables.payouts| && DecidePayout(s.tables.payouts[p], command).Move? {
        DecidedMoveOk(s.tables.payouts[p], command);
        PutKeeps(s, a, Reviewing(p, s.tables.payouts[p], DecidePayout(s.tables.payouts[p], command)));
      }
    case Commit(a) => if a in s.attempts { CommitKeeps(s, a); }
    case Crash(a) => WrittenKeeps(s, a, None);
  }

  lemma {:induction false} RunKeeps(s: State, steps: seq<Step>)
    requires Inv(s)
    ensures Preserves(s, Exec(s, steps))
    decreases |steps|
  {
    if steps == [] {
      ExtendsReflexive(s.tables);
    } else {
      NextKeeps(s, steps[0]);
      RunKeeps(Next(s, steps[0]), steps[1..]);
      ExtendsTransitive(s.tables, Next(s, steps[0]).tables, Exec(s, steps).tables);
    }
  }

  function Run(steps: seq<Step>): State { Exec(Init(), steps) }

  lemma EveryRunKeepsBooks(steps: seq<Step>)
    ensures Inv(Run(steps))
  {
    forall partner: PartnerId, status: EarningStatus ensures AgreeRow(Init().tables, partner, status) { }
    RunKeeps(Init(), steps);
  }

  // ---------------------------------------------------------------------------
  // Ledger and projection
  // ---------------------------------------------------------------------------

  lemma {:induction false} EarnedIsTheSumOfStatuses(earnings: seq<Earning>, partner: PartnerId)
    ensures EarnedBy(earnings, partner) ==
              SumOf(earnings, partner, Pending) + SumOf(earnings, partner, Available) + SumOf(earnings, partner, EarningStatus.Requested)
              + SumOf(earnings, partner, EarningStatus.Paid) + SumOf(earnings, partner, Reversed)
    decreases |earnings|
  {
    if earnings == [] {
    } else {
      EarnedIsTheSumOfStatuses(earnings[..|earnings| - 1], partner);
    }
  }

  /** In every reachable state every bucket balance derived from the ledger is the sum of the
      partner's earnings in the matching status, and the six balances cancel out. */
  lemma LedgerAgreesWithProjection(steps: seq<Step>, partner: PartnerId)
    ensures var t := Run(steps).tables;
            && Balance(t.ledger, partner, PendingBucket) == SumOf(t.earnings, partner, Pending)
            && Balance(t.ledger, partner, AvailableBucket) == SumOf(t.earnings, partner, Available)
            && Balance(t.ledger, partner, LockedBucket) == SumOf(t.earnings, partner, EarningStatus.Requested)
            && Balance(t.ledger, partner, PaidBucket) == SumOf(t.earnings, partner, EarningStatus.Paid)
            && Balance(t.ledger, partner, ReversedBucket) == SumOf(t.earnings, partner, Reversed)
            && Balance(t.ledger, partner, Payable) + Balance(t.ledger, partner, PendingBucket) + Balance(t.ledger, partner, AvailableBucket)
               + Balance(t.ledger, partner, LockedBucket) + Balance(t.ledger, partner, PaidBucket) + Balance(t.ledger, partner, ReversedBucket) == 0
  {
    EveryRunKeepsBooks(steps);
    var t := Run(steps).tables;
    assert AgreeRow(t, partner, Pending) && AgreeRow(t, partner, Available) && AgreeRow(t, partner, EarningStatus.Requested)
           && AgreeRow(t, partner, EarningStatus.Paid) && AgreeRow(t, partner, Reversed) && PayableRow(t, partner);
    EarnedIsTheSumOfStatuses(t.earnings, partner);
  }

  lemma EveryTransactionIsZeroSum(steps: seq<Step>, i: nat)
    requires i < |Run(steps).tables.ledger|
    ensures ZeroSum(Run(steps).tables.ledger[i])
  {
    EveryRunKeepsBooks(steps);
    assert LedgerRow(Run(steps).tables, i);
  }

  // ---------------------------------------------------------------------------
  // Every won update has its one event
  // ---------------------------------------------------------------------------

  /** The event a committed attempt has to append; `None` for the workflow moves that move no money. */
  function EventOf(t: Tables, attempt: Attempt): Option<Transaction> {
    match attempt
    case Releasing(e, read) => Some(Transfer(read.partner, HoldRelease(e), PendingBucket, AvailableBucket, read.amount))
    case Reversing(e, read, _) => Some(Transfer(read.partner, EarningReversal(e), BucketOf(read.status), ReversedBucket, read.amount))
    case Selecting(_, _, _, _) => None
    case Locking(partner, amount, allocations) =>
      Some(Transfer(partner, PayoutLock(|t.payouts|), AvailableBucket, LockedBucket, Total(allocations)))
    case Reviewing(p, payout, d) =>
      if d.Move? && d.earningNext.Some? then
        Some(Transfer(payout.partner, SettlementKey(p, d.earningNext.value), LockedBucket, BucketOf(d.earningNext.value), Total(payout.allocations)))
      else None
  }

  /** Whenever an attempt wins, its event is new to the ledger and is appended once; whenever it
      loses, nothing at all is written. */
  lemma WinnersAppendOnceLosersNothing(s: State, a: AttemptId)
    requires Inv(s) && a in s.attempts
    ensures var after := Next(s, Commit(a)).tables;
            || after == s.tables
            || after.ledger == s.tables.ledger + match EventOf(s.tables, s.attempts[a]) case None => [] case Some(txn) => [txn]
    ensures var after := Next(s, Commit(a)).tables; after.ledger == s.tables.ledger ==> after.earnings == s.tables.earnings
  {
    var t := s.tables;
    assert AttemptOk(t, s.attempts[a]);
    match s.attempts[a]
    case Releasing(e, read) => if t.earnings[e].status == read.status { SingleMoveKeeps(t, e, read, Available); }
    case Reversing(e, read, _) => if t.earnings[e].status == read.status { SingleMoveKeeps(t, e, read, Reversed); }
    case Selecting(_, _, _, _) =>
    case Locking(partner, amount, allocations) => RequestCommitsExactlyWhenAvailable(t, partner, amount, allocations);
    case Reviewing(p, payout, d) =>
      if ReviewPayout(t, p, payout, d).Applied? && d.earningNext.Some? {
        ReviewSettles(t, p, payout, d);
        assert PayoutRow(t, p);
      }
  }

  predicate UniqueKeys(ledger: seq<Transaction>) { forall i, j :: 0 <= i < j < |ledger| ==> ledger[i].key != ledger[j].key }

  /** Appending adds the event unless one with its key is there, and so never repeats a key. */
  lemma AppendedExactlyWhenNew(ledger: seq<Transaction>, t: Transaction)
    ensures Append(ledger, t) == if forall x <- ledger :: x.key != t.key then ledger + [t] else ledger
    ensures UniqueKeys(ledger) ==> UniqueKeys(Append(ledger, t))
  {
  }

  lemma StepAppendsAtMostOne(s: State, step: Step)
    ensures UniqueKeys(s.tables.ledger) ==> UniqueKeys(Next(s, step).tables.ledger)
  {
    match step
    case OrderSucceeds(o, partner, amount, _) =>
      AppendedExactlyWhenNew(s.tables.ledger, Transfer(partner, OrderSuccess(o), Payable, PendingBucket, amount));
    case Commit(a) => if a in s.attempts { CommitAppendsAtMostOne(s, a); }
    case _ =>
  }

  lemma CommitAppendsAtMostOne(s: State, a: AttemptId)
    requires a in s.attempts
    ensures UniqueKeys(s.tables.ledger) ==> UniqueKeys(CommitAttempt(s, a).tables.ledger)
  {
    var ledger := s.tables.ledger;
    match s.attempts[a]
    case Releasing(e, read) =>
      AppendedExactlyWhenNew(ledger, Transfer(read.partner, HoldRelease(e), PendingBucket, AvailableBucket, read.amount));
    case Reversing(e, read, from) =>
      AppendedExactlyWhenNew(ledger, Transfer(read.partner, EarningReversal(e), from, ReversedBucket, read.amount));
    case Selecting(_, _, _, _) =>
    case Locking(partner, amount, _) =>
      AppendedExactlyWhenNew(ledger, Transfer(partner, PayoutLock(|s.tables.payouts|), AvailableBucket, LockedBucket, amount));
    case Reviewing(p, payout, _) =>
      AppendedExactlyWhenNew(ledger, Transfer(payout.partner, PayoutUnlock(p), LockedBucket, AvailableBucket, payout.amount));
      AppendedExactlyWhenNew(ledger, Transfer(payout.partner, PayoutPaid(p), LockedBucket, PaidBucket, payout.amount));
  }

  lemma {:induction false} RunKeepsKeysUnique(s: State, steps: seq<Step>)
    requires UniqueKeys(s.tables.ledger)
    ensures UniqueKeys(Exec(s, steps).tables.ledger)
    decreases |steps|
  {
    if steps == [] {
    } else {
      StepAppendsAtMostOne(s, steps[0]);
      RunKeepsKeysUnique(Next(s, steps[0]), steps[1..]);
    }
  }

  /** No event is ever in the ledger twice. */
  lemma EveryEventIsRecordedOnce(steps: seq<Step>)
    ensures UniqueKeys(Run(steps).tables.ledger)
  {
    RunKeepsKeysUnique(Init(), steps);
  }

  // ---------------------------------------------------------------------------
  // Exactly-once allocation
  // ---------------------------------------------------------------------------

  /** An earning lies in at most one unreleased allocation, and in one exactly while it is locked or
      paid; a payout's amount is the sum of its whole earnings. */
  lemma AllocatedExactlyOnce(steps: seq<Step>, e: EarningId)
    requires e < |Run(steps).tables.earnings|
    ensures var t := Run(steps).tables;
            && (forall p, q :: HeldIn(t, e, p) && HeldIn(t, e, q) ==> p == q)
            && ((exists p :: HeldIn(t, e, p)) <==> t.earnings[e].status in {EarningStatus.Requested, EarningStatus.Paid})
    ensures var t := Run(steps).tables;
            forall p: PayoutId :: HeldIn(t, e, p) ==>
              && t.payouts[p].amount == Total(t.payouts[p].allocations)
              && WholeEarnings(t.earnings, t.payouts[p].partner, t.payouts[p].allocations)
              && (t.earnings[e].status.Paid? <==> t.payouts[p].status.Paid?)
  {
    EveryRunKeepsBooks(steps);
    var t := Run(steps).tables;
    assert HeldRow(t, e);
    forall p, q | HeldIn(t, e, p) && HeldIn(t, e, q) ensures p == q {
      assert ExclusiveRow(t, p, q) && ExclusiveRow(t, q, p);
    }
    forall p: PayoutId | HeldIn(t, e, p)
      ensures t.earnings[e].status in {EarningStatus.Requested, EarningStatus.Paid}
      ensures t.payouts[p].amount == Total(t.payouts[p].allocations)
      ensures WholeEarnings(t.earnings, t.payouts[p].partner, t.payouts[p].allocations)
      ensures t.earnings[e].status.Paid? <==> t.payouts[p].status.Paid?
    {
      assert PayoutRow(t, p);
    }
  }

  /** Rejecting or failing a payout gives every one of its earnings back: a request for any of them,
      or all of them, commits. */
  lemma CancelledEarningsAreRequestableAgain(t: Tables, p: PayoutId, d: PayoutDecision, partner: PartnerId, allocations: seq<Allocation>)
    requires BooksInv(t) && p < |t.payouts| && MoveOk(t.payouts[p].status, d) && d.earningNext == Some(Available)
    requires ReviewPayout(t, p, t.payouts[p], d).Applied?
    requires partner == t.payouts[p].partner && allocations != [] && DistinctEarnings(allocations)
    requires forall x <- allocations :: x in t.payouts[p].allocations
    ensures RequestPayout(ReviewPayout(t, p, t.payouts[p], d).tables, partner, Total(allocations), allocations).Some?
  {
    var after := ReviewPayout(t, p, t.payouts[p], d).tables;
    ReviewKeeps(t, p, t.payouts[p], d);
    ReviewSettles(t, p, t.payouts[p], d);
    assert PayoutRow(t, p);
    RequestCommitsExactlyWhenAvailable(after, partner, Total(allocations), allocations);
  }

  /** A step that creates a payout takes available earnings only. */
  lemma NewPayoutsTakeAvailableEarnings(s: State, step: Step, p: PayoutId, e: EarningId)
    requires Inv(s) && |s.tables.payouts| <= p < |Next(s, step).tables.payouts|
    requires Lists(Next(s, step).tables.payouts[p].allocations, e)
    ensures e < |s.tables.earnings| && s.tables.earnings[e].status.Available?
  {
    var a := step.a;
    assert AttemptOk(s.tables, s.attempts[a]);
    var Locking(partner, amount, allocations) := s.attempts[a];
    RequestCommitsExactlyWhenAvailable(s.tables, partner, amount, allocations);
  }

  /** A paid or reversed earning stays what it is and never enters a later payout. */
  lemma {:induction false} SettledEarningNeverAllocatedAgain(s: State, steps: seq<Step>, e: EarningId)
    requires Inv(s) && e < |s.tables.earnings| && s.tables.earnings[e].status in {EarningStatus.Paid, Reversed}
    ensures var after := Exec(s, steps).tables;
            && e < |after.earnings| && after.earnings[e] == s.tables.earnings[e] && |s.tables.payouts| <= |after.payouts|
            && forall p :: |s.tables.payouts| <= p < |after.payouts| ==> !Lists(after.payouts[p].allocations, e)
    decreases |steps|
  {
    if steps == [] {
    } else {
      var next := Next(s, steps[0]);
      var after := Exec(s, steps).tables;
      NextKeeps(s, steps[0]);
      assert KeptEarning(s.tables, next.tables, e);
      RunKeeps(next, steps[1..]);
      SettledEarningNeverAllocatedAgain(next, steps[1..], e);
      PayoutsNeverVanish(s.tables, next.tables);
      forall p | |s.tables.payouts| <= p < |next.tables.payouts| ensures !Lists(after.payouts[p].allocations, e) {
        assert KeptPayout(next.tables, after, p);
        if Lists(next.tables.payouts[p].allocations, e) { NewPayoutsTakeAvailableEarnings(s, steps[0], p, e); }
      }
    }
  }

  lemma PayoutsNeverVanish(before: Tables, after: Tables)
    requires Extends(before, after)
    ensures |before.payouts| <= |after.payouts|
  {
    if |before.payouts| > 0 { assert KeptPayout(before, after, |before.payouts| - 1); }
  }

  // ---------------------------------------------------------------------------
  // The order of things
  // ---------------------------------------------------------------------------

  /** What may become of an earning: it becomes available, is requested, and is paid or given back; until
      it is requested it may be reversed. */
  predicate EarningEdge(from: EarningStatus, to: EarningStatus) {
    || (from.Pending? && to.Available?)
    || (from.Available? && to.Requested?)
    || (from.Requested? && (to.Paid? || to.Available?))
    || ((from.Pending? || from.Available?) && to.Reversed?)
  }

  /** A payout moves along the workflow or not at all, and a new one starts as requested. */
  predicate FollowsWorkflow(before: Tables, after: Tables, p: PayoutId) {
    if p >= |before.payouts| then p < |after.payouts| ==> after.payouts[p].status.Requested?
    else
      && p < |after.payouts|
      && (after.payouts[p].status == before.payouts[p].status || PayoutEdge(before.payouts[p].status, after.payouts[p].status))
  }

  /** An earning moves along its life or not at all, and a new one starts as pending. */
  predicate FollowsLife(before: Tables, after: Tables, e: EarningId) {
    if e >= |before.earnings| then e < |after.earnings| ==> after.earnings[e].status.Pending?
    else
      && e < |after.earnings|
      && (after.earnings[e].status == before.earnings[e].status || EarningEdge(before.earnings[e].status, after.earnings[e].status))
  }

  lemma CommitMovesAlongEdges(s: State, a: AttemptId, p: PayoutId)
    requires Inv(s) && a in s.attempts
    ensures FollowsWorkflow(s.tables, CommitAttempt(s, a).tables, p)
  {
    assert AttemptOk(s.tables, s.attempts[a]);
  }

  /** Every step of every service keeps each payout to the workflow. */
  lemma StepMovesPayoutsAlongEdges(s: State, step: Step, p: PayoutId)
    requires Inv(s)
    ensures FollowsWorkflow(s.tables, Next(s, step).tables, p)
  {
    if step.Commit? && step.a in s.attempts { CommitMovesAlongEdges(s, step.a, p); }
  }

  predicate InStatus(s: State, p: PayoutId, status: PayoutStatus) { p < |s.tables.payouts| && s.tables.payouts[p].status == status }

  /** At some point of the run, its ends included, the payout has the status. */
  predicate Visits(s: State, steps: seq<Step>, p: PayoutId, status: PayoutStatus)
    decreases |steps|
  {
    InStatus(s, p, status) || (steps != [] && Visits(Next(s, steps[0]), steps[1..], p, status))
  }

  lemma {:induction false} LaterStatusesWereEarned(s: State, steps: seq<Step>, p: PayoutId)
    requires Inv(s)
    requires p < |s.tables.payouts| ==> s.tables.payouts[p].status in {PayoutStatus.Requested, Approved, Processing}
    ensures InStatus(Exec(s, steps), p, PayoutStatus.Paid) ==> Visits(s, steps, p, Processing)
    ensures InStatus(Exec(s, steps), p, Processing) && !InStatus(s, p, Processing) ==> Visits(s, steps, p, Approved)
    ensures InStatus(Exec(s, steps), p, PayoutStatus.Paid) && !InStatus(s, p, Processing) ==> Visits(s, steps, p, Approved)
    decreases |steps|
  {
    if steps == [] {
    } else {
      var next := Next(s, steps[0]);
      NextKeeps(s, steps[0]);
      StepMovesPayoutsAlongEdges(s, steps[0], p);
      if p < |next.tables.payouts| && IsTerminal(next.tables.payouts[p].status) {
        RunKeeps(next, steps[1..]);
        assert KeptPayout(next.tables, Exec(s, steps).tables, p);
      } else {
        LaterStatusesWereEarned(next, steps[1..], p);
      }
    }
  }

  /** Whatever the run, a payout that is paid has been processed, and one that is processed has been approved. */
  lemma PaidWasApprovedAndProcessed(steps: seq<Step>, p: PayoutId)
    ensures InStatus(Run(steps), p, PayoutStatus.Paid) ==> Visits(Init(), steps, p, Processing) && Visits(Init(), steps, p, Approved)
    ensures InStatus(Run(steps), p, Processing) ==> Visits(Init(), steps, p, Approved)
  {
    EveryRunKeepsBooks([]);
    LaterStatusesWereEarned(Init(), steps, p);
  }

  lemma CommitMovesEarningsAlongEdges(s: State, a: AttemptId, e: EarningId)
    requires Inv(s) && a in s.attempts && e < |s.tables.earnings|
    ensures FollowsLife(s.tables, CommitAttempt(s, a).tables, e)
  {
    var t := s.tables;
    assert AttemptOk(t, s.attempts[a]);
    match s.attempts[a]
    case Releasing(_, _) =>
    case Reversing(_, _, _) =>
    case Selecting(_, _, _, _) =>
    case Locking(partner, amount, allocations) =>
      RequestCommitsExactlyWhenAvailable(t, partner, amount, allocations);
      if AllIn(t.earnings, allocations, Available) { MovedStatus(t.earnings, allocations, Available, EarningStatus.Requested); }
    case Reviewing(p, payout, d) =>
      if ReviewPayout(t, p, payout, d).Applied? && d.earningNext.Some? {
        ReviewSettles(t, p, payout, d);
        assert PayoutRow(t, p);
        MovedStatus(t.earnings, t.payouts[p].allocations, EarningStatus.Requested, d.earningNext.value);
      }
  }

  lemma CommitAddsNoEarning(s: State, a: AttemptId)
    requires Inv(s) && a in s.attempts
    ensures |CommitAttempt(s, a).tables.earnings| == |s.tables.earnings|
  {
    var t := s.tables;
    assert AttemptOk(t, s.attempts[a]);
    match s.attempts[a]
    case Locking(partner, amount, allocations) => RequestCommitsExactlyWhenAvailable(t, partner, amount, allocations);
    case Reviewing(p, payout, d) =>
      if ReviewPayout(t, p, payout, d).Applied? && d.earningNext.Some? { ReviewSettles(t, p, payout, d); }
    case _ =>
  }

  /** The success of an order is recorded exactly once, for a positive safe amount. */
  lemma SuccessRecordedExactlyWhen(t: Tables, o: OrderId, partner: PartnerId, amount: nat, availableAt: Time)
    ensures RecordSuccess(t, o, partner, amount, availableAt).Some? <==>
              0 < amount <= 0x1F_FFFF_FFFF_FFFF && forall e :: 0 <= e < |t.earnings| ==> t.earnings[e].orderId != o
  {
  }

  /** Every step of every service keeps each earning to its life. */
  lemma StepMovesEarningsAlongEdges(s: State, step: Step, e: EarningId)
    requires Inv(s)
    ensures FollowsLife(s.tables, Next(s, step).tables, e)
  {
    if step.Commit? && step.a in s.attempts {
      if e < |s.tables.earnings| { CommitMovesEarningsAlongEdges(s, step.a, e); }
      CommitAddsNoEarning(s, step.a);
    }
  }

  // ---------------------------------------------------------------------------
  // What an undisturbed service does
  // ---------------------------------------------------------------------------

  /** The event has been appended, and the one earning moved. */
  predicate MovedOne(t: Tables, after: Tables, e: EarningId, next: EarningStatus, key: EventKey, from: Bucket, to: Bucket)
    requires e < |t.earnings|
  {
    var earning := t.earnings[e];
    after == t.(earnings := t.earnings[e := earning.(status := next)],
                ledger := t.ledger + [Transfer(earning.partner, key, from, to, earning.amount)])
  }

  lemma CommittedAlone(s: State, a: AttemptId)
    requires a in s.attempts
    ensures Next(s, Commit(a)).tables ==
              match s.attempts[a]
              case Releasing(e, read) => ReleaseHold(s.tables, e, read.partner, read.amount).GetOr(s.tables)
              case Reversing(e, read, from) => ReverseEarning(s.tables, e, read.partner, read.amount, read.status, from).GetOr(s.tables)
              case Selecting(_, _, _, _) => s.tables
              case Locking(partner, amount, allocations) => RequestPayout(s.tables, partner, amount, allocations).GetOr(s.tables)
              case Reviewing(p, payout, d) =>
                if !d.Move? then s.tables
                else match ReviewPayout(s.tables, p, payout, d) case Applied(tables) => tables case _ => s.tables
  {
  }

  /** From every reachable state an undisturbed release makes a due earning available. */
  lemma ReleaseAloneReleases(steps: seq<Step>, a: AttemptId, e: EarningId, now: Time)
    requires var s := Run(steps); a !in s.attempts && e < |s.tables.earnings|
    requires var earning := Run(steps).tables.earnings[e]; earning.status == Pending && earning.availableAt <= now
    ensures var t := Run(steps).tables;
            MovedOne(t, Next(Next(Run(steps), ReadForRelease(a, e, t.earnings[e].partner, now, false)), Commit(a)).tables,
                     e, Available, HoldRelease(e), PendingBucket, AvailableBucket)
  {
    var s := Run(steps);
    EveryRunKeepsBooks(steps);
    var read := s.tables.earnings[e];
    var after := Next(s, ReadForRelease(a, e, read.partner, now, false));
    assert after == s.(attempts := s.attempts[a := Releasing(e, read)]);
    CommittedAlone(after, a);
    SingleMoveKeeps(s.tables, e, read, Available);
  }

  /** From every reachable state an undisturbed reversal with a reason takes an unlocked earning back. */
  lemma ReversalAloneReverses(steps: seq<Step>, a: AttemptId, e: EarningId, trimmedReason: nat)
    requires var s := Run(steps); a !in s.attempts && e < |s.tables.earnings| && trimmedReason > 0
    requires Run(steps).tables.earnings[e].status in {Pending, Available}
    ensures var t := Run(steps).tables;
            MovedOne(t, Next(Next(Run(steps), ReadForReversal(a, e, t.earnings[e].partner, trimmedReason)), Commit(a)).tables,
                     e, Reversed, EarningReversal(e), if t.earnings[e].status == Pending then PendingBucket else AvailableBucket, ReversedBucket)
  {
    var s := Run(steps);
    EveryRunKeepsBooks(steps);
    var read := s.tables.earnings[e];
    var after := Next(s, ReadForReversal(a, e, read.partner, trimmedReason));
    assert after == s.(attempts := s.attempts[a := Reversing(e, read, BucketOf(read.status))]);
    CommittedAlone(after, a);
    SingleMoveKeeps(s.tables, e, read, Reversed);
  }

  predicate ReferenceUsedElsewhere(t: Tables, p: PayoutId, reference: string) {
    exists q :: 0 <= q < |t.payouts| && q != p && t.payouts[q].paymentReference == Some(reference)
  }

  /** The payout's row once a decision is carried out. */
  function Settled(row: Payout, d: PayoutDecision): Payout
    requires d.Move?
  {
    match d.next
    case Paid => row.(status := PayoutStatus.Paid, paymentReference := d.reference)
    case Rejected => row.(status := Rejected, released := true)
    case Failed => row.(status := Failed, released := true)
    case _ => row.(status := d.next)
  }

  /** From every reachable state an undisturbed review that the workflow allows is carried out, unless
      its payment reference is another payout's: the payout moves, and with it exactly its earnings. */
  lemma ReviewAloneIsCarriedOut(steps: seq<Step>, a: AttemptId, p: PayoutId, command: PayoutCommand)
    requires var s := Run(steps); a !in s.attempts && p < |s.tables.payouts| && DecidePayout(s.tables.payouts[p], command).Move?
    ensures var t := Run(steps).tables;
            var after := Next(Next(Run(steps), ReadForReview(a, p, command)), Commit(a)).tables;
            var row, d := t.payouts[p], DecidePayout(t.payouts[p], command);
            if command.MarkPaid? && ReferenceUsedElsewhere(t, p, command.reference) then after == t
            else
              && after.payouts == t.payouts[p := Settled(row, d)]
              && (d.earningNext.None? ==> after.earnings == t.earnings && after.ledger == t.ledger)
              && (d.earningNext.Some? ==>
                    && (forall e :: 0 <= e < |t.earnings| ==>
                          |after.earnings| == |t.earnings|
                          && after.earnings[e] == if Lists(row.allocations, e) then t.earnings[e].(status := d.earningNext.value) else t.earnings[e])
                    && after.ledger == t.ledger + [Transfer(row.partner, if command.MarkPaid? then PayoutPaid(p) else PayoutUnlock(p),
                                                            LockedBucket, if command.MarkPaid? then PaidBucket else AvailableBucket, row.amount)])
  {
    var s := Run(steps);
    EveryRunKeepsBooks(steps);
    var t, row, d := s.tables, s.tables.payouts[p], DecidePayout(s.tables.payouts[p], command);
    var read := Next(s, ReadForReview(a, p, command));
    assert read == s.(attempts := s.attempts[a := Reviewing(p, row, d)]);
    CommittedAlone(read, a);
    ReviewDecidedExactly(row, command);
    DecidedMoveOk(row, command);
    assert PayoutRow(t, p);
    if ReviewPayout(t, p, row, d).Applied? && d.earningNext.Some? { ReviewSettles(t, p, row, d); }
  }
}
