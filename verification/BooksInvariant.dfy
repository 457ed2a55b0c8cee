/** What every interleaving of the money services keeps true of earnings, payouts and the ledger. */
module BooksInvariant {
  import opened Prelude
  import opened Books

  // ---------------------------------------------------------------------------
  // Sums
  // ---------------------------------------------------------------------------

  function EntrySum(entries: seq<Entry>, bucket: Bucket): int {
    if entries == [] then 0
    else EntrySum(entries[..|entries| - 1], bucket)
         + (if entries[|entries| - 1].bucket == bucket then entries[|entries| - 1].amount else 0)
  }

  function EntryTotal(entries: seq<Entry>): int {
    if entries == [] then 0 else EntryTotal(entries[..|entries| - 1]) + entries[|entries| - 1].amount
  }

  /** A partner's balance in a bucket: the sum of its signed entries. */
  function Balance(ledger: seq<Transaction>, partner: PartnerId, bucket: Bucket): int {
    if ledger == [] then 0
    else Balance(ledger[..|ledger| - 1], partner, bucket)
         + (if ledger[|ledger| - 1].partner == partner then EntrySum(ledger[|ledger| - 1].entries, bucket) else 0)
  }

  function AmountIf(earning: Earning, partner: PartnerId, status: EarningStatus): nat {
    if earning.partner == partner && earning.status == status then earning.amount else 0
  }

  /** What a partner's earnings in a status add up to. */
  function SumOf(earnings: seq<Earning>, partner: PartnerId, status: EarningStatus): nat {
    if earnings == [] then 0
    else SumOf(earnings[..|earnings| - 1], partner, status) + AmountIf(earnings[|earnings| - 1], partner, status)
  }

  function EarnedBy(earnings: seq<Earning>, partner: PartnerId): nat {
    if earnings == [] then 0
    else EarnedBy(earnings[..|earnings| - 1], partner)
         + (if earnings[|earnings| - 1].partner == partner then earnings[|earnings| - 1].amount else 0)
  }

  lemma PairSums(x: Entry, y: Entry, bucket: Bucket)
    ensures EntrySum([x, y], bucket) == (if x.bucket == bucket then x.amount else 0) + (if y.bucket == bucket then y.amount else 0)
    ensures EntryTotal([x, y]) == x.amount + y.amount
  {
    assert [x, y][..1] == [x] && [x][..0] == [];
    assert EntrySum([x], bucket) == (if x.bucket == bucket then x.amount else 0) && EntryTotal([x]) == x.amount;
  }

  lemma TransferBalance(ledger: seq<Transaction>, t: Transaction, key: EventKey, from: Bucket, to: Bucket, amount: nat,
                        partner: PartnerId, bucket: Bucket)
    requires t == Transfer(t.partner, key, from, to, amount)
    ensures Balance(ledger + [t], partner, bucket) == Balance(ledger, partner, bucket)
              + (if partner == t.partner then (if bucket == to then amount as int else 0) - (if bucket == from then amount as int else 0) else 0)
  {
    assert (ledger + [t])[..|ledger|] == ledger;
    PairSums(t.entries[0], t.entries[1], bucket);
  }

  lemma {:induction false} SumAfterStatus(earnings: seq<Earning>, e: EarningId, next: EarningStatus, partner: PartnerId, status: EarningStatus)
    requires e < |earnings|
    ensures SumOf(earnings[e := earnings[e].(status := next)], partner, status)
            == SumOf(earnings, partner, status) - AmountIf(earnings[e], partner, status)
               + AmountIf(earnings[e].(status := next), partner, status)
    decreases |earnings|
  {
    var last := |earnings| - 1;
    var after := earnings[e := earnings[e].(status := next)];
    if e == last {
      assert after[..last] == earnings[..last];
    } else {
      assert after[..last] == earnings[..last][e := earnings[e].(status := next)];
      SumAfterStatus(earnings[..last], e, next, partner, status);
    }
  }

  lemma {:induction false} EarnedAfterStatus(earnings: seq<Earning>, e: EarningId, next: EarningStatus, partner: PartnerId)
    requires e < |earnings|
    ensures EarnedBy(earnings[e := earnings[e].(status := next)], partner) == EarnedBy(earnings, partner)
    decreases |earnings|
  {
    var last := |earnings| - 1;
    var after := earnings[e := earnings[e].(status := next)];
    if e == last {
      assert after[..last] == earnings[..last];
    } else {
      assert after[..last] == earnings[..last][e := earnings[e].(status := next)];
      EarnedAfterStatus(earnings[..last], e, next, partner);
    }
  }

  // ---------------------------------------------------------------------------
  // The invariant, row by row
  // ---------------------------------------------------------------------------

  function BucketOf(status: EarningStatus): Bucket {
    match status
    case Pending => PendingBucket
    case Available => AvailableBucket
    case Requested => LockedBucket
    case Paid => PaidBucket
    case Reversed => ReversedBucket
  }

  predicate AgreeRow(t: Tables, partner: PartnerId, status: EarningStatus) {
    Balance(t.ledger, partner, BucketOf(status)) == SumOf(t.earnings, partner, status)
  }

  predicate PayableRow(t: Tables, partner: PartnerId) {
    Balance(t.ledger, partner, Payable) == -(EarnedBy(t.earnings, partner) as int)
  }

  ghost predicate Agreement(t: Tables) {
    && (forall partner: PartnerId, status: EarningStatus {:trigger AgreeRow(t, partner, status)} :: AgreeRow(t, partner, status))
    && (forall partner: PartnerId {:trigger PayableRow(t, partner)} :: PayableRow(t, partner))
  }

  predicate ZeroSum(t: Transaction) { |t.entries| >= 2 && EntryTotal(t.entries) == 0 }

  /** What the presence of an event in the ledger says about the rows. */
  predicate KeyMeans(t: Tables, key: EventKey) {
    match key
    case OrderSuccess(o) => exists e :: 0 <= e < |t.earnings| && t.earnings[e].orderId == o
    case HoldRelease(e) => e < |t.earnings| && !t.earnings[e].status.Pending?
    case EarningReversal(e) => e < |t.earnings| && t.earnings[e].status.Reversed?
    case PayoutLock(p) => p < |t.payouts|
    case PayoutPaid(p) => p < |t.payouts| && t.payouts[p].status.Paid?
    case PayoutUnlock(p) => p < |t.payouts| && t.payouts[p].status in {Rejected, Failed}
  }

  predicate LedgerRow(t: Tables, i: nat) {
    i < |t.ledger| ==> ZeroSum(t.ledger[i]) && KeyMeans(t, t.ledger[i].key)
  }

  predicate Lists(allocations: seq<Allocation>, e: EarningId) { exists a <- allocations :: a.earningId == e }

  predicate DistinctEarnings(allocations: seq<Allocation>) {
    forall i, j :: 0 <= i < j < |allocations| ==> allocations[i].earningId != allocations[j].earningId
  }

  /** Allocations name whole earnings of one partner, each once. */
  predicate WholeEarnings(earnings: seq<Earning>, partner: PartnerId, allocations: seq<Allocation>) {
    && DistinctEarnings(allocations)
    && forall a <- allocations ::
         a.earningId < |earnings| && earnings[a.earningId].partner == partner && earnings[a.earningId].amount == a.amount
  }

  /** The status a payout keeps its earnings in; `None` once it has given them back. */
  function KeepsIn(status: PayoutStatus): Option<EarningStatus> {
    match status
    case Paid => Some(EarningStatus.Paid)
    case Rejected => None
    case Failed => None
    case _ => Some(EarningStatus.Requested)
  }

  predicate PayoutRow(t: Tables, p: PayoutId) {
    p < |t.payouts| ==>
      var payout := t.payouts[p];
      && WholeEarnings(t.earnings, payout.partner, payout.allocations)
      && payout.allocations != [] && payout.amount == Total(payout.allocations)
      && (payout.released <==> KeepsIn(payout.status).None?)
      && (payout.paymentReference.Some? <==> payout.status.Paid?)
      && (KeepsIn(payout.status).Some? ==>
            forall a <- payout.allocations :: t.earnings[a.earningId].status == KeepsIn(payout.status).value)
  }

  /** No earning sits in two unreleased allocations. */
  predicate ExclusiveRow(t: Tables, p: PayoutId, q: PayoutId) {
    p < q < |t.payouts| && !t.payouts[p].released && !t.payouts[q].released ==>
      forall a <- t.payouts[p].allocations, b <- t.payouts[q].allocations :: a.earningId != b.earningId
  }

  /** No two payouts carry one payment reference. */
  predicate ReferenceRow(t: Tables, p: PayoutId, q: PayoutId) {
    p < q < |t.payouts| && t.payouts[p].paymentReference.Some? ==> t.payouts[p].paymentReference != t.payouts[q].paymentReference
  }

  predicate HeldIn(t: Tables, e: EarningId, p: PayoutId) {
    p < |t.payouts| && !t.payouts[p].released && Lists(t.payouts[p].allocations, e)
  }

  /** A locked or paid earning is in the hands of a payout: none is stranded. */
  ghost predicate HeldRow(t: Tables, e: EarningId) {
    e < |t.earnings| && t.earnings[e].status in {EarningStatus.Requested, EarningStatus.Paid} ==> exists p :: HeldIn(t, e, p)
  }

  ghost predicate BooksInv(t: Tables) {
    && Agreement(t)
    && (forall i: nat {:trigger LedgerRow(t, i)} :: LedgerRow(t, i))
    && (forall p: PayoutId {:trigger PayoutRow(t, p)} :: PayoutRow(t, p))
    && (forall p: PayoutId, q: PayoutId {:trigger ExclusiveRow(t, p, q)} :: ExclusiveRow(t, p, q))
    && (forall p: PayoutId, q: PayoutId {:trigger ReferenceRow(t, p, q)} :: ReferenceRow(t, p, q))
    && (forall e: EarningId {:trigger HeldRow(t, e)} :: HeldRow(t, e))
  }

  // ---------------------------------------------------------------------------
  // What never changes about a row
  // ---------------------------------------------------------------------------

  predicate SameEarning(before: Earning, after: Earning) {
    && after.partner == before.partner && after.orderId == before.orderId
    && after.amount == before.amount && after.availableAt == before.availableAt
    && (before.status in {EarningStatus.Paid, Reversed} ==> after.status == before.status)
  }

  predicate SamePayout(before: Payout, after: Payout) {
    && after.partner == before.partner && after.amount == before.amount && after.allocations == before.allocations
    && (IsTerminal(before.status) ==> after == before)
  }

  predicate KeptEarning(before: Tables, after: Tables, e: EarningId) {
    e < |before.earnings| ==> e < |after.earnings| && SameEarning(before.earnings[e], after.earnings[e])
  }

  predicate KeptPayout(before: Tables, after: Tables, p: PayoutId) {
    p < |before.payouts| ==> p < |after.payouts| && SamePayout(before.payouts[p], after.payouts[p])
  }

  ghost predicate Extends(before: Tables, after: Tables) {
    && (forall e: EarningId {:trigger KeptEarning(before, after, e)} :: KeptEarning(before, after, e))
    && (forall p: PayoutId {:trigger KeptPayout(before, after, p)} :: KeptPayout(before, after, p))
    && before.ledger <= after.ledger
  }

  // ---------------------------------------------------------------------------
  // Agreement under one move
  // ---------------------------------------------------------------------------

  lemma MovedRow(t: Tables, e: EarningId, next: EarningStatus, txn: Transaction, partner: PartnerId, status: EarningStatus)
    requires AgreeRow(t, partner, status) && e < |t.earnings|
    requires var earning := t.earnings[e];
             txn == Transfer(earning.partner, txn.key, BucketOf(earning.status), BucketOf(next), earning.amount)
    ensures AgreeRow(t.(earnings := t.earnings[e := t.earnings[e].(status := next)], ledger := t.ledger + [txn]), partner, status)
  {
    var earning := t.earnings[e];
    TransferBalance(t.ledger, txn, txn.key, BucketOf(earning.status), BucketOf(next), earning.amount, partner, BucketOf(status));
    SumAfterStatus(t.earnings, e, next, partner, status);
  }

  lemma MovedPayable(t: Tables, e: EarningId, next: EarningStatus, txn: Transaction, partner: PartnerId)
    requires PayableRow(t, partner) && e < |t.earnings|
    requires var earning := t.earnings[e];
             txn == Transfer(earning.partner, txn.key, BucketOf(earning.status), BucketOf(next), earning.amount)
    ensures PayableRow(t.(earnings := t.earnings[e := t.earnings[e].(status := next)], ledger := t.ledger + [txn]), partner)
  {
    var earning := t.earnings[e];
    TransferBalance(t.ledger, txn, txn.key, BucketOf(earning.status), BucketOf(next), earning.amount, partner, Payable);
    EarnedAfterStatus(t.earnings, e, next, partner);
  }

  lemma MovedAgreement(t: Tables, e: EarningId, next: EarningStatus, key: EventKey)
    requires Agreement(t) && e < |t.earnings|
    ensures var earning := t.earnings[e];
            Agreement(t.(earnings := t.earnings[e := earning.(status := next)],
                         ledger := t.ledger + [Transfer(earning.partner, key, BucketOf(earning.status), BucketOf(next), earning.amount)]))
  {
    var earning := t.earnings[e];
    var txn := Transfer(earning.partner, key, BucketOf(earning.status), BucketOf(next), earning.amount);
    var after := t.(earnings := t.earnings[e := earning.(status := next)], ledger := t.ledger + [txn]);
    forall partner: PartnerId, status: EarningStatus ensures AgreeRow(after, partner, status) {
      assert AgreeRow(t, partner, status);
      MovedRow(t, e, next, txn, partner, status);
    }
    forall partner: PartnerId ensures PayableRow(after, partner) {
      assert PayableRow(t, partner);
      MovedPayable(t, e, next, txn, partner);
    }
  }

  lemma TransferZeroSum(partner: PartnerId, key: EventKey, from: Bucket, to: Bucket, amount: nat)
    ensures ZeroSum(Transfer(partner, key, from, to, amount))
  {
    PairSums(Entry(from, -(amount as int)), Entry(to, amount), from);
  }

  /** An event that the rows rule out is not in the ledger, so appending it is never a duplicate. */
  lemma FreshAppend(t: Tables, txn: Transaction)
    requires (forall i: nat {:trigger LedgerRow(t, i)} :: LedgerRow(t, i)) && !KeyMeans(t, txn.key)
    ensures Append(t.ledger, txn) == t.ledger + [txn]
  {
    forall i | 0 <= i < |t.ledger| ensures t.ledger[i].key != txn.key {
      assert LedgerRow(t, i);
    }
  }

  /** The ledger rows stand when one event is appended and no earlier event loses its meaning. */
  lemma LedgerGrows(t: Tables, after: Tables, txn: Transaction)
    requires forall i: nat {:trigger LedgerRow(t, i)} :: LedgerRow(t, i)
    requires after.ledger == t.ledger + [txn] && ZeroSum(txn) && KeyMeans(after, txn.key)
    requires forall i :: 0 <= i < |t.ledger| && KeyMeans(t, t.ledger[i].key) ==> KeyMeans(after, t.ledger[i].key)
    ensures forall i: nat {:trigger LedgerRow(after, i)} :: LedgerRow(after, i)
  {
    forall i: nat ensures LedgerRow(after, i) {
      assert LedgerRow(t, i);
    }
  }

  // ---------------------------------------------------------------------------
  // Hold release and reversal
  // ---------------------------------------------------------------------------

  /** The status of an earning no payout keeps moves, with a fresh event between the matching buckets. */
  lemma MoveFreeEarning(t: Tables, e: EarningId, next: EarningStatus, key: EventKey)
    requires BooksInv(t) && e < |t.earnings| && t.earnings[e].status in {Pending, Available}
    requires (next.Available? && t.earnings[e].status.Pending? && key == HoldRelease(e)) || (next.Reversed? && key == EarningReversal(e))
    ensures var earning := t.earnings[e];
            var txn := Transfer(earning.partner, key, BucketOf(earning.status), BucketOf(next), earning.amount);
            var after := t.(earnings := t.earnings[e := earning.(status := next)], ledger := Append(t.ledger, txn));
            && after.ledger == t.ledger + [txn]
            && BooksInv(after) && Extends(t, after)
  {
    var earning := t.earnings[e];
    var txn := Transfer(earning.partner, key, BucketOf(earning.status), BucketOf(next), earning.amount);
    var after := t.(earnings := t.earnings[e := earning.(status := next)], ledger := Append(t.ledger, txn));
    FreshAppend(t, txn);
    MovedAgreement(t, e, next, key);
    TransferZeroSum(earning.partner, key, BucketOf(earning.status), BucketOf(next), earning.amount);
    forall i | 0 <= i < |t.ledger| && KeyMeans(t, t.ledger[i].key) ensures KeyMeans(after, t.ledger[i].key) {
      OrdersStand(t, after, t.ledger[i].key);
    }
    LedgerGrows(t, after, txn);
    forall p: PayoutId ensures PayoutRow(after, p) { assert PayoutRow(t, p); }
    forall p: PayoutId, q: PayoutId ensures ExclusiveRow(after, p, q) { assert ExclusiveRow(t, p, q); }
    forall p: PayoutId, q: PayoutId ensures ReferenceRow(after, p, q) { assert ReferenceRow(t, p, q); }
    forall f: EarningId ensures HeldRow(after, f) { HeldStands(t, after, f); }
  }

  lemma OrdersStand(t: Tables, after: Tables, key: EventKey)
    requires |t.earnings| <= |after.earnings|
    requires forall e :: 0 <= e < |t.earnings| ==> after.earnings[e].orderId == t.earnings[e].orderId
    ensures key.OrderSuccess? && KeyMeans(t, key) ==> KeyMeans(after, key)
  {
    if key.OrderSuccess? && KeyMeans(t, key) {
      var e :| 0 <= e < |t.earnings| && t.earnings[e].orderId == key.orderId;
      assert after.earnings[e].orderId == key.orderId;
    }
  }

  lemma HeldStands(t: Tables, after: Tables, e: EarningId)
    requires HeldRow(t, e) && |t.earnings| == |after.earnings| && after.payouts == t.payouts
    requires e < |t.earnings| && after.earnings[e].status in {EarningStatus.Requested, EarningStatus.Paid} ==>
               t.earnings[e].status == after.earnings[e].status
    ensures HeldRow(after, e)
  {
    if e < |t.earnings| && after.earnings[e].status in {EarningStatus.Requested, EarningStatus.Paid} {
      var p :| HeldIn(t, e, p);
      assert HeldIn(after, e, p);
    }
  }

  // ---------------------------------------------------------------------------
  // Moving a whole payout's earnings
  // ---------------------------------------------------------------------------

  /** The allocated earnings in their new status, all others as they were. */
  function Moved(earnings: seq<Earning>, allocations: seq<Allocation>, next: EarningStatus): seq<Earning> {
    seq(|earnings|, e requires 0 <= e < |earnings| =>
      if Lists(allocations, e) then earnings[e].(status := next) else earnings[e])
  }

  predicate AllIn(earnings: seq<Earning>, allocations: seq<Allocation>, status: EarningStatus) {
    forall a <- allocations :: a.earningId < |earnings| && earnings[a.earningId].status == status
  }

  lemma MovedStep(earnings: seq<Earning>, allocations: seq<Allocation>, next: EarningStatus)
    requires allocations != [] && allocations[|allocations| - 1].earningId < |earnings|
    ensures var last := allocations[|allocations| - 1].earningId;
            Moved(earnings, allocations, next)
            == Moved(earnings, allocations[..|allocations| - 1], next)[last := earnings[last].(status := next)]
  {
    var n := |allocations| - 1;
    assert allocations == allocations[..n] + [allocations[n]];
    assert forall e: nat :: Lists(allocations, e) <==> Lists(allocations[..n], e) || allocations[n].earningId == e;
  }

  lemma WholePrefix(earnings: seq<Earning>, partner: PartnerId, allocations: seq<Allocation>)
    requires allocations != [] && WholeEarnings(earnings, partner, allocations)
    ensures var n := |allocations| - 1;
            WholeEarnings(earnings, partner, allocations[..n]) && !Lists(allocations[..n], allocations[n].earningId)
            && allocations[n] in allocations
  {
  }

  lemma MovedOneMore(earnings: seq<Earning>, e: EarningId, next: EarningStatus, q: PartnerId, status: EarningStatus)
    requires e < |earnings|
    ensures var after := earnings[e := earnings[e].(status := next)];
            && EarnedBy(after, q) == EarnedBy(earnings, q)
            && SumOf(after, q, status) == SumOf(earnings, q, status)
                 - (if q == earnings[e].partner && status == earnings[e].status then earnings[e].amount else 0)
                 + (if q == earnings[e].partner && status == next then earnings[e].amount else 0)
  {
    SumAfterStatus(earnings, e, next, q, status);
    EarnedAfterStatus(earnings, e, next, q);
  }

  lemma {:induction false} MovedSums(earnings: seq<Earning>, allocations: seq<Allocation>, partner: PartnerId,
                                     from: EarningStatus, next: EarningStatus, q: PartnerId, status: EarningStatus)
    requires WholeEarnings(earnings, partner, allocations) && AllIn(earnings, allocations, from)
    ensures SumOf(Moved(earnings, allocations, next), q, status)
            == SumOf(earnings, q, status)
               - (if q == partner && status == from then Total(allocations) else 0)
               + (if q == partner && status == next then Total(allocations) else 0)
    ensures EarnedBy(Moved(earnings, allocations, next), q) == EarnedBy(earnings, q)
    decreases |allocations|
  {
    if allocations == [] {
      assert Moved(earnings, allocations, next) == earnings;
    } else {
      var n := |allocations| - 1;
      WholePrefix(earnings, partner, allocations);
      MovedSums(earnings, allocations[..n], partner, from, next, q, status);
      MovedStep(earnings, allocations, next);
      var before, last := Moved(earnings, allocations[..n], next), allocations[n];
      assert before[last.earningId] == earnings[last.earningId];
      MovedOneMore(before, last.earningId, next, q, status);
      assert Total(allocations) == Total(allocations[..n]) + last.amount;
    }
  }

  function Shift(same: bool, from: bool, to: bool, amount: nat): int {
    if !same then 0 else (if to then amount as int else 0) - (if from then amount as int else 0)
  }

  lemma MovedAllRow(t: Tables, allocations: seq<Allocation>, partner: PartnerId, from: EarningStatus, next: EarningStatus,
                    txn: Transaction, q: PartnerId, status: EarningStatus)
    requires AgreeRow(t, q, status) && WholeEarnings(t.earnings, partner, allocations) && AllIn(t.earnings, allocations, from)
    requires txn == Transfer(partner, txn.key, BucketOf(from), BucketOf(next), Total(allocations))
    ensures AgreeRow(Tables(Moved(t.earnings, allocations, next), t.payouts, t.ledger + [txn]), q, status)
  {
    var shift := Shift(q == partner, status == from, status == next, Total(allocations));
    assert Balance(t.ledger + [txn], q, BucketOf(status)) == Balance(t.ledger, q, BucketOf(status)) + shift by {
      TransferBalance(t.ledger, txn, txn.key, BucketOf(from), BucketOf(next), Total(allocations), q, BucketOf(status));
    }
    assert SumOf(Moved(t.earnings, allocations, next), q, status) == SumOf(t.earnings, q, status) + shift by {
      MovedSums(t.earnings, allocations, partner, from, next, q, status);
    }
  }

  lemma MovedAllPayable(t: Tables, allocations: seq<Allocation>, partner: PartnerId, from: EarningStatus, next: EarningStatus,
                        txn: Transaction, q: PartnerId)
    requires PayableRow(t, q) && WholeEarnings(t.earnings, partner, allocations) && AllIn(t.earnings, allocations, from)
    requires txn == Transfer(partner, txn.key, BucketOf(from), BucketOf(next), Total(allocations))
    ensures PayableRow(Tables(Moved(t.earnings, allocations, next), t.payouts, t.ledger + [txn]), q)
  {
    TransferBalance(t.ledger, txn, txn.key, BucketOf(from), BucketOf(next), Total(allocations), q, Payable);
    MovedSums(t.earnings, allocations, partner, from, next, q, Pending);
  }

  lemma MovedAllAgreement(t: Tables, allocations: seq<Allocation>, partner: PartnerId, from: EarningStatus, next: EarningStatus, key: EventKey)
    requires Agreement(t) && WholeEarnings(t.earnings, partner, allocations) && AllIn(t.earnings, allocations, from)
    ensures Agreement(Tables(Moved(t.earnings, allocations, next), t.payouts,
                             t.ledger + [Transfer(partner, key, BucketOf(from), BucketOf(next), Total(allocations))]))
  {
    var txn := Transfer(partner, key, BucketOf(from), BucketOf(next), Total(allocations));
    var after := Tables(Moved(t.earnings, allocations, next), t.payouts, t.ledger + [txn]);
    forall q: PartnerId, status: EarningStatus ensures AgreeRow(after, q, status) {
      assert AgreeRow(t, q, status);
      MovedAllRow(t, allocations, partner, from, next, txn, q, status);
    }
    forall q: PartnerId ensures PayableRow(after, q) {
      assert PayableRow(t, q);
      MovedAllPayable(t, allocations, partner, from, next, txn, q);
    }
  }

  /** The request's locks are all won exactly when every selected earning is available, and then
      exactly the selection has moved. */
  lemma {:induction false} LocksWonExactlyWhenAvailable(earnings: seq<Earning>, allocations: seq<Allocation>, partner: PartnerId)
    requires WholeEarnings(earnings, partner, allocations)
    ensures LockAll(earnings, allocations, partner).Some? <==> AllIn(earnings, allocations, Available)
    ensures AllIn(earnings, allocations, Available) ==>
              LockAll(earnings, allocations, partner) == Some(Moved(earnings, allocations, EarningStatus.Requested))
    decreases |allocations|
  {
    if allocations == [] {
      assert Moved(earnings, allocations, EarningStatus.Requested) == earnings;
    } else {
      var n := |allocations| - 1;
      WholePrefix(earnings, partner, allocations);
      LocksWonExactlyWhenAvailable(earnings, allocations[..n], partner);
      MovedStep(earnings, allocations, EarningStatus.Requested);
      assert allocations == allocations[..n] + [allocations[n]];
      assert AllIn(earnings, allocations, Available)
             <==> AllIn(earnings, allocations[..n], Available) && earnings[allocations[n].earningId].status.Available?;
    }
  }

  lemma {:induction false} MovesAllWin(earnings: seq<Earning>, allocations: seq<Allocation>, partner: PartnerId, next: EarningStatus)
    requires WholeEarnings(earnings, partner, allocations) && AllIn(earnings, allocations, EarningStatus.Requested)
    ensures MoveAll(earnings, allocations, partner, next) == Moved(earnings, allocations, next)
    decreases |allocations|
  {
    if allocations == [] {
      assert Moved(earnings, allocations, next) == earnings;
    } else {
      var n := |allocations| - 1;
      WholePrefix(earnings, partner, allocations);
      MovesAllWin(earnings, allocations[..n], partner, next);
      MovedStep(earnings, allocations, next);
    }
  }

  /** While a payout keeps its earnings `requested`, none of the unchecked updates can miss. */
  lemma UncheckedMoveWins(earnings: seq<Earning>, allocations: seq<Allocation>, partner: PartnerId, next: EarningStatus, k: nat)
    requires WholeEarnings(earnings, partner, allocations) && AllIn(earnings, allocations, EarningStatus.Requested) && k < |allocations|
    ensures Matches(MoveAll(earnings, allocations[..k], partner, next), allocations[k].earningId, partner, EarningStatus.Requested)
  {
    assert forall a <- allocations[..k] :: a in allocations;
    MovesAllWin(earnings, allocations[..k], partner, next);
    assert !Lists(allocations[..k], allocations[k].earningId) && allocations[k] in allocations;
  }

  // ---------------------------------------------------------------------------
  // Payout request
  // ---------------------------------------------------------------------------

  /** What a request that passed its decision brings to its transaction. */
  predicate LockOk(t: Tables, partner: PartnerId, amount: nat, allocations: seq<Allocation>) {
    && WholeEarnings(t.earnings, partner, allocations) && allocations != [] && amount == Total(allocations)
  }

  lemma AvailableIsUnallocated(t: Tables, allocations: seq<Allocation>)
    requires BooksInv(t) && AllIn(t.earnings, allocations, Available)
    ensures forall a <- allocations :: Unallocated(t.payouts, a.earningId)
  {
    forall a <- allocations ensures Unallocated(t.payouts, a.earningId) {
      forall p | 0 <= p < |t.payouts| && !t.payouts[p].released ensures forall b <- t.payouts[p].allocations :: b.earningId != a.earningId {
        assert PayoutRow(t, p);
      }
    }
  }

  /** A request commits exactly when every selected earning is still available: the unique index on
      allocations is a backstop that never fires. A lost lock leaves no trace. */
  lemma RequestCommitsExactlyWhenAvailable(t: Tables, partner: PartnerId, amount: nat, allocations: seq<Allocation>)
    requires BooksInv(t) && LockOk(t, partner, amount, allocations)
    ensures RequestPayout(t, partner, amount, allocations).Some? <==> AllIn(t.earnings, allocations, Available)
    ensures AllIn(t.earnings, allocations, Available) ==>
              var after := RequestPayout(t, partner, amount, allocations).value;
              && after.earnings == Moved(t.earnings, allocations, EarningStatus.Requested)
              && after.payouts == t.payouts + [Payout(partner, PayoutStatus.Requested, amount, allocations, false, None)]
              && after.ledger == t.ledger + [Transfer(partner, PayoutLock(|t.payouts|), AvailableBucket, LockedBucket, amount)]
  {
    LocksWonExactlyWhenAvailable(t.earnings, allocations, partner);
    if AllIn(t.earnings, allocations, Available) {
      AvailableIsUnallocated(t, allocations);
      FreshAppend(t, Transfer(partner, PayoutLock(|t.payouts|), AvailableBucket, LockedBucket, amount));
    }
  }

  lemma RequestKeeps(t: Tables, partner: PartnerId, amount: nat, allocations: seq<Allocation>)
    requires BooksInv(t) && LockOk(t, partner, amount, allocations) && RequestPayout(t, partner, amount, allocations).Some?
    ensures var after := RequestPayout(t, partner, amount, allocations).value; BooksInv(after) && Extends(t, after)
  {
    RequestCommitsExactlyWhenAvailable(t, partner, amount, allocations);
    var after := RequestPayout(t, partner, amount, allocations).value;
    var key := PayoutLock(|t.payouts|);
    var txn := Transfer(partner, key, AvailableBucket, LockedBucket, amount);
    AvailableIsUnallocated(t, allocations);
    MovedAllAgreement(t, allocations, partner, Available, EarningStatus.Requested, key);
    AgreementIgnoresPayouts(Tables(after.earnings, t.payouts, after.ledger), after);
    TransferZeroSum(partner, key, AvailableBucket, LockedBucket, amount);
    forall i | 0 <= i < |t.ledger| && KeyMeans(t, t.ledger[i].key) ensures KeyMeans(after, t.ledger[i].key) {
      OrdersStand(t, after, t.ledger[i].key);
      MovedStatus(t.earnings, allocations, Available, EarningStatus.Requested);
    }
    LedgerGrows(t, after, txn);
    forall p: PayoutId ensures PayoutRow(after, p) && KeptPayout(t, after, p) {
      assert PayoutRow(t, p);
      if p < |t.payouts| && !t.payouts[p].released { KeptByOthers(t, allocations, Available, EarningStatus.Requested, p); }
    }
    forall p: PayoutId, q: PayoutId ensures ExclusiveRow(after, p, q) { assert ExclusiveRow(t, p, q); }
    forall p: PayoutId, q: PayoutId ensures ReferenceRow(after, p, q) { assert ReferenceRow(t, p, q); }
    forall e: EarningId ensures HeldRow(after, e) && KeptEarning(t, after, e) {
      if Lists(allocations, e) {
        assert HeldIn(after, e, |t.payouts|);
      } else {
        assert HeldRow(t, e);
        if e < |t.earnings| && t.earnings[e].status in {EarningStatus.Requested, EarningStatus.Paid} {
          var p :| HeldIn(t, e, p);
          assert HeldIn(after, e, p);
        }
      }
    }
  }

  lemma AgreementIgnoresPayouts(t: Tables, after: Tables)
    requires Agreement(t) && after.earnings == t.earnings && after.ledger == t.ledger
    ensures Agreement(after)
  {
    forall partner: PartnerId, status: EarningStatus ensures AgreeRow(after, partner, status) { assert AgreeRow(t, partner, status); }
    forall partner: PartnerId ensures PayableRow(after, partner) { assert PayableRow(t, partner); }
  }

  lemma MovedStatus(earnings: seq<Earning>, allocations: seq<Allocation>, from: EarningStatus, next: EarningStatus)
    requires AllIn(earnings, allocations, from)
    ensures forall e :: 0 <= e < |earnings| && earnings[e].status != from ==> Moved(earnings, allocations, next)[e] == earnings[e]
    ensures forall e :: 0 <= e < |earnings| ==>
              Moved(earnings, allocations, next)[e] == earnings[e]
              || (earnings[e].status == from && Moved(earnings, allocations, next)[e] == earnings[e].(status := next))
  {
  }

  /** A payout's earnings stay where it keeps them while earnings in another status move. */
  lemma KeptByOthers(t: Tables, allocations: seq<Allocation>, from: EarningStatus, next: EarningStatus, p: PayoutId)
    requires p < |t.payouts| && PayoutRow(t, p) && !t.payouts[p].released && AllIn(t.earnings, allocations, from)
    requires KeepsIn(t.payouts[p].status) != Some(from)
    ensures forall a <- t.payouts[p].allocations :: Moved(t.earnings, allocations, next)[a.earningId] == t.earnings[a.earningId]
  {
    MovedStatus(t.earnings, allocations, from, next);
  }

  // ---------------------------------------------------------------------------
  // Payout review
  // ---------------------------------------------------------------------------

  /** The review workflow: a payout is approved, then processed, then paid; until it is paid it may be
      rejected or failed. */
  predicate PayoutEdge(from: PayoutStatus, to: PayoutStatus) {
    || (from.Requested? && to.Approved?)
    || (from.Approved? && to.Processing?)
    || (from.Processing? && to.Paid?)
    || ((from.Requested? || from.Approved? || from.Processing?) && (to.Rejected? || to.Failed?))
  }

  /** All that matters of a granted review transition. */
  predicate MoveOk(status: PayoutStatus, d: PayoutDecision) {
    && d.Move? && PayoutEdge(status, d.next)
    && match d.earningNext
       case None => d.next in {Approved, Processing} && d.reference.None?
       case Some(next) =>
         || (next.Available? && d.next in {Rejected, Failed} && d.reference.None?)
         || (next.Paid? && d.next.Paid? && d.reference.Some?)
  }

  lemma DecidedMoveOk(payout: Payout, command: PayoutCommand)
    requires DecidePayout(payout, command).Move?
    ensures MoveOk(payout.status, DecidePayout(payout, command))
  {
  }

  lemma ReviewMovesExactlyItsEarnings(t: Tables, p: PayoutId, d: PayoutDecision)
    requires BooksInv(t) && p < |t.payouts| && MoveOk(t.payouts[p].status, d) && d.earningNext.Some?
    ensures var row := t.payouts[p];
            && WholeEarnings(t.earnings, row.partner, row.allocations) && AllIn(t.earnings, row.allocations, EarningStatus.Requested)
            && row.amount == Total(row.allocations)
            && MoveAll(t.earnings, row.allocations, row.partner, d.earningNext.value)
               == Moved(t.earnings, row.allocations, d.earningNext.value)
  {
    assert PayoutRow(t, p);
    MovesAllWin(t.earnings, t.payouts[p].allocations, t.payouts[p].partner, d.earningNext.value);
  }

  function SettlementKey(p: PayoutId, next: EarningStatus): EventKey {
    if next.Paid? then PayoutPaid(p) else PayoutUnlock(p)
  }

  function Reviewed(row: Payout, d: PayoutDecision): Payout
    requires d.Move?
  {
    row.(status := d.next,
         paymentReference := if d.reference.Some? then d.reference else row.paymentReference,
         released := row.released || d.earningNext == Some(Available))
  }

  /** A settling or cancelling review moves exactly its own earnings and appends a fresh event for
      exactly their sum, although none of its updates is checked. */
  lemma ReviewSettles(t: Tables, p: PayoutId, read: Payout, d: PayoutDecision)
    requires BooksInv(t) && p < |t.payouts| && SamePayout(read, t.payouts[p]) && MoveOk(read.status, d) && d.earningNext.Some?
    requires ReviewPayout(t, p, read, d).Applied?
    ensures var row := t.payouts[p]; var next := d.earningNext.value;
            ReviewPayout(t, p, read, d).tables ==
              Tables(Moved(t.earnings, row.allocations, next), t.payouts[p := Reviewed(row, d)],
                     t.ledger + [Transfer(row.partner, SettlementKey(p, next), LockedBucket, BucketOf(next), row.amount)])
  {
    ReviewMovesExactlyItsEarnings(t, p, d);
    var row := t.payouts[p];
    FreshAppend(t, Transfer(row.partner, SettlementKey(p, d.earningNext.value), LockedBucket, BucketOf(d.earningNext.value), row.amount));
  }

  lemma WorkflowMoveKeeps(t: Tables, p: PayoutId, read: Payout, d: PayoutDecision)
    requires BooksInv(t) && p < |t.payouts| && SamePayout(read, t.payouts[p]) && MoveOk(read.status, d) && d.earningNext.None?
    requires ReviewPayout(t, p, read, d).Applied?
    ensures BooksInv(ReviewPayout(t, p, read, d).tables) && Extends(t, ReviewPayout(t, p, read, d).tables)
  {
    var after := ReviewPayout(t, p, read, d).tables;
    AgreementIgnoresPayouts(t, after);
    forall i: nat ensures LedgerRow(after, i) { assert LedgerRow(t, i); }
    forall q: PayoutId ensures PayoutRow(after, q) && KeptPayout(t, after, q) { assert PayoutRow(t, q); }
    forall q: PayoutId, r: PayoutId ensures ExclusiveRow(after, q, r) { assert ExclusiveRow(t, q, r); }
    forall q: PayoutId, r: PayoutId ensures ReferenceRow(after, q, r) { assert ReferenceRow(t, q, r); }
    forall e: EarningId ensures HeldRow(after, e) {
      assert HeldRow(t, e);
      if e < |t.earnings| && t.earnings[e].status in {EarningStatus.Requested, EarningStatus.Paid} {
        var q :| HeldIn(t, e, q);
        assert PayoutRow(t, q) && HeldIn(after, e, q);
      }
    }
  }

  /** Other payouts share no earning with the one that is settled. */
  lemma OthersKeepTheirs(t: Tables, p: PayoutId, q: PayoutId, next: EarningStatus)
    requires BooksInv(t) && p < |t.payouts| && q < |t.payouts| && q != p && !t.payouts[p].released && !t.payouts[q].released
    ensures forall a <- t.payouts[q].allocations ::
              a.earningId < |t.earnings|
              && Moved(t.earnings, t.payouts[p].allocations, next)[a.earningId] == t.earnings[a.earningId]
  {
    assert ExclusiveRow(t, p, q) && ExclusiveRow(t, q, p) && PayoutRow(t, q);
  }

  lemma SettlementKeeps(t: Tables, p: PayoutId, read: Payout, d: PayoutDecision)
    requires BooksInv(t) && p < |t.payouts| && SamePayout(read, t.payouts[p]) && MoveOk(read.status, d) && d.earningNext.Some?
    requires ReviewPayout(t, p, read, d).Applied?
    ensures BooksInv(ReviewPayout(t, p, read, d).tables) && Extends(t, ReviewPayout(t, p, read, d).tables)
  {
    ReviewSettles(t, p, read, d);
    ReviewMovesExactlyItsEarnings(t, p, d);
    var after := ReviewPayout(t, p, read, d).tables;
    var row := t.payouts[p];
    var next := d.earningNext.value;
    var txn := Transfer(row.partner, SettlementKey(p, next), LockedBucket, BucketOf(next), row.amount);
    assert PayoutRow(t, p);
    MovedAllAgreement(t, row.allocations, row.partner, EarningStatus.Requested, next, SettlementKey(p, next));
    AgreementIgnoresPayouts(Tables(after.earnings, t.payouts, after.ledger), after);
    TransferZeroSum(row.partner, SettlementKey(p, next), LockedBucket, BucketOf(next), row.amount);
    MovedStatus(t.earnings, row.allocations, EarningStatus.Requested, next);
    forall i | 0 <= i < |t.ledger| && KeyMeans(t, t.ledger[i].key) ensures KeyMeans(after, t.ledger[i].key) {
      OrdersStand(t, after, t.ledger[i].key);
    }
    LedgerGrows(t, after, txn);
    forall q: PayoutId ensures PayoutRow(after, q) && KeptPayout(t, after, q) {
      assert PayoutRow(t, q);
      if q < |t.payouts| && q != p && !t.payouts[q].released { OthersKeepTheirs(t, p, q, next); }
    }
    forall q: PayoutId, r: PayoutId ensures ExclusiveRow(after, q, r) { assert ExclusiveRow(t, q, r); }
    forall q: PayoutId, r: PayoutId ensures ReferenceRow(after, q, r) { assert ReferenceRow(t, q, r); }
    forall e: EarningId ensures HeldRow(after, e) && KeptEarning(t, after, e) { SettledHeld(t, p, after, next, e); }
  }

  lemma SettledHeld(t: Tables, p: PayoutId, after: Tables, next: EarningStatus, e: EarningId)
    requires BooksInv(t) && p < |t.payouts| == |after.payouts| && !t.payouts[p].released && next in {Available, EarningStatus.Paid}
    requires after.earnings == Moved(t.earnings, t.payouts[p].allocations, next)
    requires after.payouts == t.payouts[p := after.payouts[p]]
    requires after.payouts[p].allocations == t.payouts[p].allocations && (after.payouts[p].released <==> next.Available?)
    ensures HeldRow(after, e)
  {
    assert HeldRow(t, e);
    if e < |t.earnings| {
      if Lists(t.payouts[p].allocations, e) {
        if next.Paid? { assert HeldIn(after, e, p); }
      } else if t.earnings[e].status in {EarningStatus.Requested, EarningStatus.Paid} {
        var q :| HeldIn(t, e, q);
        assert HeldIn(after, e, q);
      }
    }
  }

  lemma ReviewKeeps(t: Tables, p: PayoutId, read: Payout, d: PayoutDecision)
    requires BooksInv(t) && p < |t.payouts| && SamePayout(read, t.payouts[p]) && MoveOk(read.status, d)
    requires ReviewPayout(t, p, read, d).Applied?
    ensures BooksInv(ReviewPayout(t, p, read, d).tables) && Extends(t, ReviewPayout(t, p, read, d).tables)
  {
    if d.earningNext.None? { WorkflowMoveKeeps(t, p, read, d); } else { SettlementKeeps(t, p, read, d); }
  }

  // ---------------------------------------------------------------------------
  // Order success
  // ---------------------------------------------------------------------------

  lemma SuccessKeeps(t: Tables, o: OrderId, partner: PartnerId, amount: nat, availableAt: Time)
    requires BooksInv(t) && RecordSuccess(t, o, partner, amount, availableAt).Some?
    ensures var after := RecordSuccess(t, o, partner, amount, availableAt).value;
            && BooksInv(after) && Extends(t, after)
            && after.earnings == t.earnings + [Earning(partner, o, amount, Pending, availableAt)] && after.payouts == t.payouts
            && after.ledger == t.ledger + [Transfer(partner, OrderSuccess(o), Payable, PendingBucket, amount)]
  {
    var after := RecordSuccess(t, o, partner, amount, availableAt).value;
    var txn := Transfer(partner, OrderSuccess(o), Payable, PendingBucket, amount);
    FreshAppend(t, txn);
    TransferZeroSum(partner, OrderSuccess(o), Payable, PendingBucket, amount);
    assert after.earnings[..|t.earnings|] == t.earnings;
    forall q: PartnerId, status: EarningStatus ensures AgreeRow(after, q, status) {
      assert AgreeRow(t, q, status);
      TransferBalance(t.ledger, txn, OrderSuccess(o), Payable, PendingBucket, amount, q, BucketOf(status));
    }
    forall q: PartnerId ensures PayableRow(after, q) {
      assert PayableRow(t, q);
      TransferBalance(t.ledger, txn, OrderSuccess(o), Payable, PendingBucket, amount, q, Payable);
    }
    assert after.earnings[|t.earnings|].orderId == o;
    forall i | 0 <= i < |t.ledger| && KeyMeans(t, t.ledger[i].key) ensures KeyMeans(after, t.ledger[i].key) {
      OrdersStand(t, after, t.ledger[i].key);
    }
    LedgerGrows(t, after, txn);
    forall p: PayoutId ensures PayoutRow(after, p) { assert PayoutRow(t, p); }
    forall p: PayoutId, q: PayoutId ensures ExclusiveRow(after, p, q) { assert ExclusiveRow(t, p, q); }
    forall p: PayoutId, q: PayoutId ensures ReferenceRow(after, p, q) { assert ReferenceRow(t, p, q); }
    forall e: EarningId ensures HeldRow(after, e) {
      assert HeldRow(t, e);
      if e < |t.earnings| && t.earnings[e].status in {EarningStatus.Requested, EarningStatus.Paid} {
        var p :| HeldIn(t, e, p);
        assert HeldIn(after, e, p);
      }
    }
  }
}
