/** The money services as the programs they are: guarded updates and loops inside transactions. The
    arguments a transaction is given were read before it began and may be stale. */
module BooksServices {
  import opened Prelude
  import opened Books
  import opened BooksInvariant
  import opened BooksGuarantees
  import opened Paging

  datatype RequestOutcome =
    | PayoutCreated(payoutId: PayoutId)
    | EarningNotFound(earningId: EarningId)
    | Refused(code: RequestRejection)
    | EarningConflict(earningId: EarningId)
    | Threw

  datatype ReleaseOutcome = Released | EarningMissing | StateChanged | NotReleased(decision: HoldDecision)

  datatype ReviewOutcome = Ok(status: PayoutStatus) | NotFound | Declined(code: PayoutRejection) | Conflict | DuplicatePaymentReference

  predicate OwnsAll(t: Tables, partner: PartnerId, ids: seq<EarningId>) {
    forall i :: 0 <= i < |ids| ==> FindEarning(t, ids[i], partner).Some?
  }

  /** What the request service finds when it looks its selection up. */
  function SelectAll(t: Tables, partner: PartnerId, ids: seq<EarningId>): (r: seq<Selected>)
    requires OwnsAll(t, partner, ids)
    ensures |r| == |ids| && forall i :: 0 <= i < |r| ==> r[i] == Selected(ids[i], FindEarning(t, ids[i], partner).value)
  {
    seq(|ids|, i requires 0 <= i < |ids| => Selected(ids[i], FindEarning(t, ids[i], partner).value))
  }

  lemma SelectedIsLockOk(t: Tables, partner: PartnerId, ids: seq<EarningId>, minimum: Option<nat>)
    requires OwnsAll(t, partner, ids) && DecideRequest(SelectAll(t, partner, ids), minimum).Lock?
    ensures var d := DecideRequest(SelectAll(t, partner, ids), minimum);
            LockOk(t, partner, d.amount, d.allocations) && AllIn(t.earnings, d.allocations, Available)
  {
    var selection := SelectAll(t, partner, ids);
    RequestDecidedExactly(selection, minimum);
    var allocations := AllocationsOf(selection);
    forall a <- allocations
      ensures a.earningId < |t.earnings| && t.earnings[a.earningId].partner == partner
              && t.earnings[a.earningId].amount == a.amount && t.earnings[a.earningId].status.Available?
    {
      var i :| 0 <= i < |allocations| && allocations[i] == a;
      assert selection[i] in selection && FindEarning(t, ids[i], partner).Some?;
    }
  }

  /** A request reads its selection one earning at a time, decides, and commits. */
  function Reads(a: AttemptId, n: nat): seq<Step> { if n == 0 then [] else [ReadSelected(a)] + Reads(a, n - 1) }

  lemma ReadsOne(s: State, a: AttemptId, partner: PartnerId, ids: seq<EarningId>, chosen: seq<Selected>, minimum: Option<nat>)
    requires a in s.attempts && s.attempts[a] == Selecting(partner, ids, chosen, minimum)
    requires ids != [] && FindEarning(s.tables, ids[0], partner).Some?
    ensures Next(s, ReadSelected(a)) == s.(attempts := s.attempts[a :=
              Selecting(partner, ids[1..], chosen + [Selected(ids[0], FindEarning(s.tables, ids[0], partner).value)], minimum)])
  {
  }

  lemma SelectsOneMore(t: Tables, partner: PartnerId, ids: seq<EarningId>, chosen: seq<Selected>)
    requires ids != [] && OwnsAll(t, partner, ids)
    ensures OwnsAll(t, partner, ids[1..])
    ensures chosen + SelectAll(t, partner, ids)
            == (chosen + [Selected(ids[0], FindEarning(t, ids[0], partner).value)]) + SelectAll(t, partner, ids[1..])
  {
  }

  lemma {:induction false} ReadsSelectAll(s: State, a: AttemptId, partner: PartnerId, ids: seq<EarningId>, chosen: seq<Selected>, minimum: Option<nat>)
    requires a in s.attempts && s.attempts[a] == Selecting(partner, ids, chosen, minimum) && OwnsAll(s.tables, partner, ids)
    ensures Exec(s, Reads(a, |ids|)) == s.(attempts := s.attempts[a := Selecting(partner, [], chosen + SelectAll(s.tables, partner, ids), minimum)])
    decreases |ids|
  {
    if ids == [] {
      assert chosen + SelectAll(s.tables, partner, []) == chosen;
      assert s.attempts[a := s.attempts[a]] == s.attempts;
    } else {
      ReadsOne(s, a, partner, ids, chosen, minimum);
      SelectsOneMore(s.tables, partner, ids, chosen);
      assert Reads(a, |ids|)[1..] == Reads(a, |ids| - 1);
      var first := Selected(ids[0], FindEarning(s.tables, ids[0], partner).value);
      ReadsSelectAll(Next(s, ReadSelected(a)), a, partner, ids[1..], chosen + [first], minimum);
    }
  }

  lemma DecidesToLock(s: State, a: AttemptId, partner: PartnerId, chosen: seq<Selected>, minimum: Option<nat>)
    requires a in s.attempts && s.attempts[a] == Selecting(partner, [], chosen, minimum) && DecideRequest(chosen, minimum).Lock?
    ensures var d := DecideRequest(chosen, minimum);
            Next(s, ReadSelected(a)) == s.(attempts := s.attempts[a := Locking(partner, d.amount, d.allocations)])
  {
  }

  lemma ReadsAll(s: State, a: AttemptId, partner: PartnerId, ids: seq<EarningId>, minimum: Option<nat>)
    requires a !in s.attempts && OwnsAll(s.tables, partner, ids)
    ensures Exec(Next(s, StartRequest(a, partner, ids, minimum)), Reads(a, |ids|))
            == s.(attempts := s.attempts[a := Selecting(partner, [], SelectAll(s.tables, partner, ids), minimum)])
  {
    var started := s.(attempts := s.attempts[a := Selecting(partner, ids, [], minimum)]);
    ReadsSelectAll(started, a, partner, ids, [], minimum);
    assert [] + SelectAll(s.tables, partner, ids) == SelectAll(s.tables, partner, ids);
  }

  lemma ReadsAndLocks(s: State, a: AttemptId, partner: PartnerId, ids: seq<EarningId>, minimum: Option<nat>)
    requires a !in s.attempts && OwnsAll(s.tables, partner, ids) && DecideRequest(SelectAll(s.tables, partner, ids), minimum).Lock?
    ensures var d := DecideRequest(SelectAll(s.tables, partner, ids), minimum);
            var read := Exec(Next(s, StartRequest(a, partner, ids, minimum)), Reads(a, |ids|));
            Next(Next(read, ReadSelected(a)), Books.Commit(a)).tables
            == RequestPayout(s.tables, partner, d.amount, d.allocations).GetOr(s.tables)
  {
    ReadsAll(s, a, partner, ids, minimum);
    var read := s.(attempts := s.attempts[a := Selecting(partner, [], SelectAll(s.tables, partner, ids), minimum)]);
    DecidesToLock(read, a, partner, SelectAll(s.tables, partner, ids), minimum);
    CommittedAlone(Next(read, ReadSelected(a)), a);
  }

  /** The rows once a payout has been created for the selected earnings. */
  predicate Granted(t: Tables, after: Tables, partner: PartnerId, ids: seq<EarningId>, amount: nat, allocations: seq<Allocation>) {
    && after.payouts == t.payouts + [Payout(partner, PayoutStatus.Requested, amount, allocations, false, None)]
    && after.ledger == t.ledger + [Transfer(partner, PayoutLock(|t.payouts|), AvailableBucket, LockedBucket, amount)]
    && |after.earnings| == |t.earnings|
    && forall e :: 0 <= e < |t.earnings| ==>
         after.earnings[e] == if e in ids then t.earnings[e].(status := EarningStatus.Requested) else t.earnings[e]
  }

  lemma LockingGrants(t: Tables, partner: PartnerId, ids: seq<EarningId>, minimum: Option<nat>)
    requires BooksInv(t) && OwnsAll(t, partner, ids) && DecideRequest(SelectAll(t, partner, ids), minimum).Lock?
    ensures var d := DecideRequest(SelectAll(t, partner, ids), minimum);
            var after := RequestPayout(t, partner, d.amount, d.allocations);
            after.Some? && Granted(t, after.value, partner, ids, d.amount, d.allocations)
  {
    var d := DecideRequest(SelectAll(t, partner, ids), minimum);
    RequestDecidedExactly(SelectAll(t, partner, ids), minimum);
    SelectedIsLockOk(t, partner, ids, minimum);
    RequestCommitsExactlyWhenAvailable(t, partner, d.amount, d.allocations);
    forall e | 0 <= e < |t.earnings| ensures Lists(d.allocations, e) <==> e in ids {
      AllocatedIsListed(t, partner, ids, e);
    }
  }

  /** From every reachable state an undisturbed request for earnings of one's own that the decision grants
      is granted: a payout for exactly their sum is created and they are locked. */
  lemma RequestAloneIsGranted(steps: seq<Step>, a: AttemptId, partner: PartnerId, ids: seq<EarningId>, minimum: Option<nat>)
    requires var s := Run(steps); a !in s.attempts && OwnsAll(s.tables, partner, ids)
    requires DecideRequest(SelectAll(Run(steps).tables, partner, ids), minimum).Lock?
    ensures var t := Run(steps).tables;
            var d := DecideRequest(SelectAll(t, partner, ids), minimum);
            var read := Exec(Next(Run(steps), StartRequest(a, partner, ids, minimum)), Reads(a, |ids|));
            Granted(t, Next(Next(read, ReadSelected(a)), Books.Commit(a)).tables, partner, ids, d.amount, d.allocations)
  {
    EveryRunKeepsBooks(steps);
    ReadsAndLocks(Run(steps), a, partner, ids, minimum);
    LockingGrants(Run(steps).tables, partner, ids, minimum);
  }

  lemma AllocatedIsListed(t: Tables, partner: PartnerId, ids: seq<EarningId>, e: EarningId)
    requires OwnsAll(t, partner, ids)
    ensures Lists(AllocationsOf(SelectAll(t, partner, ids)), e) <==> e in ids
  {
    var allocations := AllocationsOf(SelectAll(t, partner, ids));
    if e in ids {
      var i :| 0 <= i < |ids| && ids[i] == e;
      assert allocations[i] in allocations && allocations[i].earningId == e;
    }
  }

  /** The earnings whose hold has elapsed. */
  function DueEarnings(t: Tables, now: Time): set<EarningId> {
    set e | 0 <= e < |t.earnings| && t.earnings[e].status.Pending? && t.earnings[e].availableAt <= now
  }

  /** The job selects exactly what the release decision lets go. */
  lemma DueIsWhatMayBeReleased(t: Tables, now: Time, e: EarningId)
    ensures e in DueEarnings(t, now) <==> e < |t.earnings| && DecideHoldRelease(t.earnings[e], now, false).ReleaseIt?
  {
  }

  /** Exactly the listed earnings have become available. */
  predicate ReleasedOnly(before: Tables, after: Tables, ids: seq<EarningId>) {
    && |after.earnings| == |before.earnings| && after.payouts == before.payouts
    && forall e :: 0 <= e < |before.earnings| ==>
         after.earnings[e] == if e in ids then before.earnings[e].(status := Available) else before.earnings[e]
  }

  lemma ReleasedOneMore(before: Tables, middle: Tables, after: Tables, ids: seq<EarningId>, e: EarningId)
    requires ReleasedOnly(before, middle, ids) && e < |before.earnings| && after.payouts == middle.payouts
    requires after.earnings == middle.earnings[e := middle.earnings[e].(status := Available)]
    ensures ReleasedOnly(before, after, ids + [e])
  {
  }

  class BooksStore {
    var earnings: seq<Earning>
    var payouts: seq<Payout>
    var ledger: seq<Transaction>

    function View(): Tables
      reads this
    { Tables(earnings, payouts, ledger) }

    constructor ()
      ensures View() == Init().tables
    {
      earnings, payouts, ledger := [], [], [];
    }

    method UpdateEarningStatus(e: EarningId, partner: PartnerId, expected: EarningStatus, next: EarningStatus) returns (updated: bool)
      modifies this`earnings
      ensures updated <==> e < |old(earnings)| && old(earnings)[e].partner == partner && old(earnings)[e].status == expected
      ensures earnings == CasEarning(old(earnings), e, partner, expected, next).GetOr(old(earnings))
    {
      if e >= |earnings| || earnings[e].partner != partner || earnings[e].status != expected {
        return false;
      }
      earnings := earnings[e := earnings[e].(status := next)];
      return true;
    }

    method AppendTransaction(t: Transaction)
      modifies this`ledger
      ensures ledger == Append(old(ledger), t)
    {
      for i := 0 to |ledger|
        invariant forall j :: 0 <= j < i ==> ledger[j].key != t.key
      {
        if ledger[i].key == t.key {
          return;
        }
      }
      ledger := ledger + [t];
    }

    method CommitRelease(e: EarningId, read: Earning) returns (applied: bool)
      modifies this`earnings, this`ledger
      ensures applied <==> ReleaseHold(old(View()), e, read.partner, read.amount).Some?
      ensures View() == ReleaseHold(old(View()), e, read.partner, read.amount).GetOr(old(View()))
    {
      applied := UpdateEarningStatus(e, read.partner, Pending, Available);
      if applied {
        AppendTransaction(Transfer(read.partner, HoldRelease(e), PendingBucket, AvailableBucket, read.amount));
      }
    }

    /** The whole hold-release service, undisturbed: it releases exactly when the decision says so. */
    method ReleaseHoldService(e: EarningId, partner: PartnerId, now: Time, hasActiveDispute: bool) returns (outcome: ReleaseOutcome)
      modifies this`earnings, this`ledger
      ensures FindEarning(old(View()), e, partner).None? ==> outcome == EarningMissing
      ensures FindEarning(old(View()), e, partner).Some? ==>
                var d := DecideHoldRelease(old(earnings)[e], now, hasActiveDispute);
                && outcome == (if d.ReleaseIt? then Released else NotReleased(d))
                && (d.ReleaseIt? ==> earnings == old(earnings)[e := old(earnings)[e].(status := Available)])
      ensures !outcome.Released? ==> View() == old(View())
      ensures BooksInv(old(View())) ==> BooksInv(View())
    {
      var found := FindEarning(View(), e, partner);
      if found.None? {
        return EarningMissing;
      }
      var d := DecideHoldRelease(found.value, now, hasActiveDispute);
      if !d.ReleaseIt? {
        return NotReleased(d);
      }
      if BooksInv(View()) {
        SingleMoveKeeps(View(), e, found.value, Available);
      }
      var applied := CommitRelease(e, found.value);
      outcome := if applied then Released else StateChanged;
    }

    /** One bounded batch of the earning-release job. */
    method RunReleaseBatch(cursor: JobCursor, batchSize: int, now: Time) returns (r: BatchResult)
      modifies this`earnings, this`ledger
      ensures var limit := if batchSize < 1 then 1 else batchSize;
              var ids := Page(DueEarnings(old(View()), now), DecodeAfterId(cursor), limit);
              && r == BatchResult(|ids|, EncodeBatchCursor(|ids| < limit, LastOf(ids)), |ids| < limit)
              && ReleasedOnly(old(View()), View(), ids)
      ensures BooksInv(old(View())) ==> BooksInv(View())
    {
      var limit := if batchSize < 1 then 1 else batchSize;
      var ids := Page(DueEarnings(View(), now), DecodeAfterId(cursor), limit);
      var processed := 0;
      for i := 0 to |ids|
        invariant processed == i
        invariant ReleasedOnly(old(View()), View(), ids[..i])
        invariant BooksInv(old(View())) ==> BooksInv(View())
      {
        ghost var before := View();
        var e := ids[i];
        assert e in DueEarnings(old(View()), now) && e !in ids[..i];
        var _ := ReleaseHoldService(e, earnings[e].partner, now, false);
        ReleasedOneMore(old(View()), before, View(), ids[..i], e);
        assert ids[..i + 1] == ids[..i] + [e];
        processed := processed + 1;
      }
      assert ids[..|ids|] == ids;
      r := BatchResult(processed, EncodeBatchCursor(|ids| < limit, LastOf(ids)), |ids| < limit);
    }

    method CommitReversal(e: EarningId, read: Earning, from: Bucket) returns (applied: bool)
      modifies this`earnings, this`ledger
      ensures applied <==> ReverseEarning(old(View()), e, read.partner, read.amount, read.status, from).Some?
      ensures View() == ReverseEarning(old(View()), e, read.partner, read.amount, read.status, from).GetOr(old(View()))
    {
      applied := UpdateEarningStatus(e, read.partner, read.status, Reversed);
      if applied {
        AppendTransaction(Transfer(read.partner, EarningReversal(e), from, ReversedBucket, read.amount));
      }
    }

    /** Locks the allocated earnings one by one and stops at the first that is lost. */
    method LockEarnings(partner: PartnerId, allocations: seq<Allocation>) returns (lost: Option<EarningId>)
      modifies this`earnings
      ensures lost.None? <==> LockAll(old(earnings), allocations, partner).Some?
      ensures lost.None? ==> earnings == LockAll(old(earnings), allocations, partner).value
      ensures lost.Some? ==> Lists(allocations, lost.value)
    {
      for i := 0 to |allocations|
        invariant LockAll(old(earnings), allocations[..i], partner) == Some(earnings)
      {
        assert allocations[..i + 1][..i] == allocations[..i];
        var updated := UpdateEarningStatus(allocations[i].earningId, partner, Available, EarningStatus.Requested);
        if !updated {
          LostLockLosesAll(old(earnings), allocations, partner, i + 1);
          return Some(allocations[i].earningId);
        }
      }
      assert allocations[..|allocations|] == allocations;
      return None;
    }

    /** The request transaction: all locks or none, then payout, allocations and ledger event. */
    method CommitRequest(partner: PartnerId, amount: nat, allocations: seq<Allocation>) returns (outcome: RequestOutcome)
      modifies this
      ensures outcome == PayoutCreated(|old(payouts)|) || outcome.EarningConflict?
      ensures outcome.PayoutCreated? <==> RequestPayout(old(View()), partner, amount, allocations).Some?
      ensures View() == RequestPayout(old(View()), partner, amount, allocations).GetOr(old(View()))
    {
      var saved := earnings;
      var lost := LockEarnings(partner, allocations);
      if lost.Some? {
        earnings := saved;
        return EarningConflict(lost.value);
      }
      for i := 0 to |allocations|
        invariant earnings == LockAll(old(earnings), allocations, partner).value
        invariant forall j :: 0 <= j < i ==> Unallocated(payouts, allocations[j].earningId)
      {
        if !Unallocated(payouts, allocations[i].earningId) {
          assert allocations[i] in allocations;
          earnings := saved;
          return EarningConflict(allocations[i].earningId);
        }
      }
      payouts := payouts + [Payout(partner, PayoutStatus.Requested, amount, allocations, false, None)];
      AppendTransaction(Transfer(partner, PayoutLock(|payouts| - 1), AvailableBucket, LockedBucket, amount));
      return PayoutCreated(|payouts| - 1);
    }

    /** The whole request service, undisturbed: it succeeds exactly when every earning is the
        partner's own and the decision locks; its locks are then never lost. */
    method RequestPayoutService(partner: PartnerId, ids: seq<EarningId>, minimum: Option<nat>) returns (outcome: RequestOutcome)
      modifies this
      ensures outcome.EarningNotFound? <==>
                exists i :: 0 <= i < |ids| && (ids[i] >= |old(earnings)| || old(earnings)[ids[i]].partner != partner)
      ensures OwnsAll(old(View()), partner, ids) ==>
                match DecideRequest(SelectAll(old(View()), partner, ids), minimum)
                case RequestRejected(code) => outcome == Refused(code)
                case AmountThrows => outcome == Threw
                case Lock(amount, allocations) =>
                  BooksInv(old(View())) ==>
                    && outcome == PayoutCreated(|old(payouts)|) && BooksInv(View())
                    && View() == RequestPayout(old(View()), partner, amount, allocations).GetOr(old(View()))
      ensures !outcome.PayoutCreated? ==> View() == old(View())
    {
      var chosen: seq<Selected> := [];
      for i := 0 to |ids|
        invariant View() == old(View())
        invariant forall j :: 0 <= j < i ==> FindEarning(View(), ids[j], partner).Some?
        invariant |chosen| == i && forall j :: 0 <= j < i ==> chosen[j] == Selected(ids[j], FindEarning(View(), ids[j], partner).value)
      {
        var found := FindEarning(View(), ids[i], partner);
        if found.None? {
          return EarningNotFound(ids[i]);
        }
        chosen := chosen + [Selected(ids[i], found.value)];
      }
      assert chosen == SelectAll(View(), partner, ids);
      match DecideRequest(chosen, minimum)
      case RequestRejected(code) =>
        return Refused(code);
      case AmountThrows =>
        return Threw;
      case Lock(amount, allocations) =>
        if BooksInv(View()) {
          SelectedIsLockOk(View(), partner, ids, minimum);
          RequestCommitsExactlyWhenAvailable(View(), partner, amount, allocations);
          RequestKeeps(View(), partner, amount, allocations);
        }
        outcome := CommitRequest(partner, amount, allocations);
    }

    /** Moves the allocated earnings on without looking at the result of any update. */
    method MoveEarnings(partner: PartnerId, allocations: seq<Allocation>, next: EarningStatus)
      modifies this`earnings
      ensures earnings == MoveAll(old(earnings), allocations, partner, next)
    {
      for i := 0 to |allocations|
        invariant earnings == MoveAll(old(earnings), allocations[..i], partner, next)
      {
        assert allocations[..i + 1][..i] == allocations[..i];
        var _ := UpdateEarningStatus(allocations[i].earningId, partner, EarningStatus.Requested, next);
      }
      assert allocations[..|allocations|] == allocations;
    }

    method CommitReview(p: PayoutId, read: Payout, d: PayoutDecision) returns (outcome: ReviewOutcome)
      requires d.Move? && d.earningNext in {None, Some(Available), Some(EarningStatus.Paid)}
      modifies this
      ensures outcome == Conflict <==>
                p >= |old(payouts)| || old(payouts)[p].partner != read.partner || old(payouts)[p].status != read.status
      ensures match ReviewPayout(old(View()), p, read, d)
              case Applied(tables) => outcome == Ok(d.next) && View() == tables
              case ReviewConflict => outcome == Conflict && View() == old(View())
              case DuplicateReference => outcome == DuplicatePaymentReference && View() == old(View())
    {
      if p >= |payouts| || payouts[p].partner != read.partner || payouts[p].status != read.status {
        return Conflict;
      }
      if ReferenceTaken(payouts, p, d.reference) {
        return DuplicatePaymentReference;
      }
      payouts := payouts[p := payouts[p].(status := d.next,
                                          paymentReference := if d.reference.Some? then d.reference else payouts[p].paymentReference)];
      if d.earningNext.Some? {
        MoveEarnings(read.partner, read.allocations, d.earningNext.value);
        if d.earningNext.value.Available? {
          payouts := payouts[p := payouts[p].(released := true)];
        }
        AppendTransaction(Transfer(read.partner, if d.earningNext.value.Available? then PayoutUnlock(p) else PayoutPaid(p),
                                   LockedBucket, BucketOf(d.earningNext.value), read.amount));
      }
      return Ok(d.next);
    }

    /** The whole review service, undisturbed. */
    method ReviewService(p: PayoutId, command: PayoutCommand) returns (outcome: ReviewOutcome)
      modifies this
      ensures p >= |old(payouts)| ==> outcome == NotFound && View() == old(View())
      ensures p < |old(payouts)| ==>
                match DecidePayout(old(payouts)[p], command)
                case AlreadyThere => outcome == Ok(old(payouts)[p].status) && View() == old(View())
                case PayoutRejected(code) => outcome == Declined(code) && View() == old(View())
                case Move(next, _, reference) =>
                  && (outcome == if ReferenceTaken(old(payouts), p, reference) then DuplicatePaymentReference else Ok(next))
                  && (outcome.Ok? ==> ReviewPayout(old(View()), p, old(payouts)[p], DecidePayout(old(payouts)[p], command)) == Applied(View()))
                  && (!outcome.Ok? ==> View() == old(View()))
                  && (BooksInv(old(View())) ==> BooksInv(View()))
    {
      if p >= |payouts| {
        return NotFound;
      }
      var read := payouts[p];
      var d := DecidePayout(read, command);
      match d
      case AlreadyThere => return Ok(read.status);
      case PayoutRejected(code) => return Declined(code);
      case Move(_, _, _) =>
        DecidedMoveOk(read, command);
        ghost var before := View();
        outcome := CommitReview(p, read, d);
        if BooksInv(before) && outcome.Ok? {
          ReviewKeeps(before, p, read, d);
        }
    }
  }

  /** A lost lock cannot be made good by later ones. */
  lemma {:induction false} LostLockLosesAll(earnings: seq<Earning>, allocations: seq<Allocation>, partner: PartnerId, k: nat)
    requires k <= |allocations| && LockAll(earnings, allocations[..k], partner).None?
    ensures LockAll(earnings, allocations, partner).None?
    decreases |allocations|
  {
    if k == |allocations| {
      assert allocations[..k] == allocations;
    } else {
      var n := |allocations| - 1;
      assert allocations[..n][..k] == allocations[..k];
      LostLockLosesAll(earnings, allocations[..n], partner, k);
    }
  }
}
