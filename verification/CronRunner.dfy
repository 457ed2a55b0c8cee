/** One invocation of the cron runner: take the lease, drain bounded batches, give the lease back. */
module CronRunner {
  import opened Prelude
  import opened Paging
  import opened JobLease

  /** `run(k, cursor)` is what the k-th batch of this invocation returns for the cursor it is given,
      unless it throws. */
  datatype Job = Job(run: (nat, JobCursor) -> BatchResult, throws: (nat, JobCursor) -> bool, maxBatches: int)

  /** Everything this invocation does not control: the clock, and what other workers make of the lease
      row while its k-th batch is running. */
  datatype World = World(clock: nat -> Time, rivals: (nat, Option<Lease>) -> Option<Lease>)

  datatype Report =
    | Completed(batches: nat, processed: nat, drained: bool, leaseLost: bool)
    | Threw(batches: nat)

  function Limit(job: Job): nat { if job.maxBatches < 1 then 1 else job.maxBatches }

  /** The least number that is at least one and at least the configured maximum. */
  lemma LimitIs(job: Job)
    ensures Limit(job) >= 1 && Limit(job) >= job.maxBatches && Limit(job) in {1, job.maxBatches}
  {
  }

  /** One invocation, with the cursor its lease came with. */
  datatype Invocation = Invocation(job: Job, world: World, owner: OwnerId, duration: nat, start: JobCursor)

  /** The cursor the k-th batch starts from: each batch resumes where the one before it stopped. */
  function CursorAt(i: Invocation, k: nat): JobCursor {
    if k == 0 then i.start else i.job.run(k - 1, CursorAt(i, k - 1)).nextCursor
  }

  function ResultAt(i: Invocation, k: nat): BatchResult { i.job.run(k, CursorAt(i, k)) }

  function ProcessedIn(i: Invocation, batches: nat): nat {
    if batches == 0 then 0 else ProcessedIn(i, batches - 1) + ResultAt(i, batches - 1).processed
  }

  /** The row as the others leave it by the end of the k-th batch. */
  function FoundAfter(i: Invocation, row: Option<Lease>, k: nat): Option<Lease>
    decreases k, 1
  {
    i.world.rivals(k, RowAfter(i, row, k))
  }

  /** What the renewal after the k-th batch makes of it; `None` when the lease is lost. */
  function RenewedAfter(i: Invocation, row: Option<Lease>, k: nat): Option<Lease>
    decreases k, 2
  {
    Renew(FoundAfter(i, row, k), i.owner, i.world.clock(k) + i.duration, CursorAt(i, k + 1), i.world.clock(k))
  }

  /** The row after `k` batches and their renewals: a renewal that fails leaves it as the others left it. */
  function RowAfter(i: Invocation, row: Option<Lease>, k: nat): Option<Lease>
    decreases k, 0
  {
    if k == 0 then row
    else if RenewedAfter(i, row, k - 1).Some? then RenewedAfter(i, row, k - 1)
    else FoundAfter(i, row, k - 1)
  }

  /** The loop goes on after its first `k` batches: none threw, none was done, and every renewal succeeded. */
  ghost predicate GoesOn(i: Invocation, row: Option<Lease>, k: nat) {
    forall j: nat :: j < k ==>
      && !i.job.throws(j, CursorAt(i, j)) && RenewedAfter(i, row, j).Some? && !ResultAt(i, j).done
  }

  lemma GoesOnOneMore(i: Invocation, row: Option<Lease>, k: nat)
    requires GoesOn(i, row, k)
    requires !i.job.throws(k, CursorAt(i, k)) && RenewedAfter(i, row, k).Some? && !ResultAt(i, k).done
    ensures GoesOn(i, row, k + 1)
  {
  }

  /** What a report says of an invocation that starts from a lease row. */
  ghost predicate Honest(i: Invocation, row: Option<Lease>, report: Report) {
    match report
    case Threw(batches) =>
      && batches < Limit(i.job) && GoesOn(i, row, batches)
      && i.job.throws(batches, CursorAt(i, batches))
    case Completed(batches, processed, drained, leaseLost) =>
      && 1 <= batches <= Limit(i.job) && GoesOn(i, row, batches - 1)
      && !i.job.throws(batches - 1, CursorAt(i, batches - 1))
      && processed == ProcessedIn(i, batches)
      && (leaseLost <==> RenewedAfter(i, row, batches - 1).None?)
      && (drained <==> !leaseLost && ResultAt(i, batches - 1).done)
      && (!leaseLost && !drained ==> batches == Limit(i.job))
  }

  /** The row the loop leaves. */
  function LeftBy(i: Invocation, row: Option<Lease>, report: Report): Option<Lease> {
    match report
    case Threw(batches) => FoundAfter(i, row, batches)
    case Completed(batches, _, _, _) => RowAfter(i, row, batches)
  }

  /** While the lease is kept, exactly the progress made is persisted under the owner's name; once it is
      lost the row stays as the others left it. */
  lemma KeptLeaseHoldsTheProgress(i: Invocation, row: Option<Lease>, report: Report)
    requires Honest(i, row, report) && report.Completed?
    ensures var k := report.batches - 1;
            LeftBy(i, row, report) ==
              if report.leaseLost then FoundAfter(i, row, k)
              else Some(Lease(i.owner, i.world.clock(k) + i.duration, CursorAt(i, k + 1)))
  {
  }

  /** A worker that finds its lease in another's hands reports it lost, and neither its renewal nor its
      release leaves a mark on the successor's row: `Release` is what the runner does last. */
  lemma StaleRunLeavesItsSuccessorAlone(i: Invocation, row: Option<Lease>, report: Report)
    requires Honest(i, row, report)
    requires var found := FoundAfter(i, row, if report.Threw? then report.batches else report.batches - 1);
             found.Some? && found.value.owner != i.owner
    ensures report.Completed? ==> report.leaseLost
    ensures Release(LeftBy(i, row, report), i.owner)
            == FoundAfter(i, row, if report.Threw? then report.batches else report.batches - 1)
  {
  }

  // ---------------------------------------------------------------------------
  // What a run works through
  // ---------------------------------------------------------------------------

  function BatchOf(page: seq<nat>, limit: nat): BatchResult {
    BatchResult(|page|, EncodeBatchCursor(|page| < limit, LastOf(page)), |page| < limit)
  }

  predicate PagesAt(job: Job, ids: set<nat>, limit: nat, k: nat, cursor: JobCursor) {
    job.run(k, cursor) == BatchOf(Page(ids, DecodeAfterId(cursor), limit), limit)
  }

  /** The job pages through a fixed set of ids, as every job with a cursor does. */
  ghost predicate PagesThrough(job: Job, ids: set<nat>, limit: nat) {
    limit >= 1 && forall k: nat, cursor: JobCursor {:trigger PagesAt(job, ids, limit, k, cursor)} :: PagesAt(job, ids, limit, k, cursor)
  }

  /** The ids the first `k` batches are given to work on, in that order. */
  function WorkedOn(i: Invocation, ids: set<nat>, limit: nat, k: nat): seq<nat> {
    if k == 0 then [] else WorkedOn(i, ids, limit, k - 1) + Page(ids, DecodeAfterId(CursorAt(i, k - 1)), limit)
  }

  /** How many ids `k` batches can take. */
  function Quota(k: nat, limit: nat): nat { if k == 0 then 0 else Quota(k - 1, limit) + limit }

  lemma {:induction false} QuotaIs(k: nat, limit: nat)
    ensures Quota(k, limit) == k * limit
  {
    if k == 0 {
    } else {
      QuotaIs(k - 1, limit);
      assert k * limit == (k - 1) * limit + limit;
    }
  }

  lemma {:induction false} QuotaGrows(j: nat, k: nat, limit: nat)
    requires j <= k
    ensures Quota(j, limit) <= Quota(k, limit)
  {
    if j == k {
    } else {
      QuotaGrows(j, k - 1, limit);
    }
  }

  lemma BatchResultIs(i: Invocation, ids: set<nat>, limit: nat, k: nat)
    requires PagesThrough(i.job, ids, limit)
    ensures var page := Page(ids, DecodeAfterId(CursorAt(i, k)), limit);
            && ResultAt(i, k) == BatchOf(page, limit)
            && WorkedOn(i, ids, limit, k + 1) == WorkedOn(i, ids, limit, k) + page
            && ProcessedIn(i, k + 1) == ProcessedIn(i, k) + |page|
            && CursorAt(i, k + 1) == EncodeBatchCursor(|page| < limit, LastOf(page))
            && (ResultAt(i, k).done <==> |page| < limit)
  {
    assert PagesAt(i.job, ids, limit, k, CursorAt(i, k));
  }

  /** The first `k` batches in a row are one long page, and the cursor says how far it reaches. */
  predicate OnePage(i: Invocation, ids: set<nat>, limit: nat, k: nat) {
    var work := Page(ids, DecodeAfterId(i.start), Quota(k, limit));
    && WorkedOn(i, ids, limit, k) == work && ProcessedIn(i, k) == |work| == Quota(k, limit)
    && DecodeAfterId(CursorAt(i, k)) == if Quota(k, limit) == 0 then DecodeAfterId(i.start) else LastOf(work)
  }

  lemma OneMoreBatch(i: Invocation, ids: set<nat>, limit: nat, k: nat)
    requires PagesThrough(i.job, ids, limit) && OnePage(i, ids, limit, k)
    ensures var work := Page(ids, DecodeAfterId(i.start), Quota(k + 1, limit));
            && WorkedOn(i, ids, limit, k + 1) == work && ProcessedIn(i, k + 1) == |work|
            && (ResultAt(i, k).done <==> |work| < Quota(k + 1, limit))
            && CursorAt(i, k + 1) == EncodeBatchCursor(ResultAt(i, k).done, LastOf(work))
  {
    BatchResultIs(i, ids, limit, k);
    OneMorePage(ids, DecodeAfterId(i.start), Quota(k, limit), DecodeAfterId(CursorAt(i, k)), limit);
  }

  lemma OneMoreFullBatch(i: Invocation, ids: set<nat>, limit: nat, k: nat)
    requires PagesThrough(i.job, ids, limit) && OnePage(i, ids, limit, k) && !ResultAt(i, k).done
    ensures OnePage(i, ids, limit, k + 1)
  {
    OneMoreBatch(i, ids, limit, k);
    WorkIsAtMost(ids, DecodeAfterId(i.start), Quota(k + 1, limit));
  }

  lemma WorkIsAtMost(ids: set<nat>, start: Option<nat>, n: nat)
    ensures |Page(ids, start, n)| <= n
  {
  }

  lemma NoBatchIsOnePage(i: Invocation, ids: set<nat>, limit: nat)
    ensures OnePage(i, ids, limit, 0)
  {
  }

  predicate AllFull(i: Invocation, k: nat) { k == 0 || (AllFull(i, k - 1) && !ResultAt(i, k - 1).done) }

  lemma {:induction false} AllFullExactlyWhen(i: Invocation, k: nat)
    ensures AllFull(i, k) <==> forall j: nat :: j < k ==> !ResultAt(i, j).done
  {
    if k == 0 {
    } else {
      AllFullExactlyWhen(i, k - 1);
    }
  }

  /** As long as every batch comes back full, the batches in a row are one long page. */
  lemma {:induction false} FullBatchesAreOnePage(i: Invocation, ids: set<nat>, limit: nat, k: nat)
    requires PagesThrough(i.job, ids, limit) && AllFull(i, k)
    ensures OnePage(i, ids, limit, k)
    decreases k
  {
    if k == 0 {
      NoBatchIsOnePage(i, ids, limit);
    } else {
      FullBatchesAreOnePage(i, ids, limit, k - 1);
      OneMoreFullBatch(i, ids, limit, k - 1);
    }
  }

  /** A run over a fixed set works through it from its cursor on, skipping nothing and taking nothing
      twice: its batches in a row are the one page of as many ids as they could take. It reports their
      number, and that it is drained exactly when they are all there is; and a lease it keeps says where
      it stopped. */
  lemma RunWorksThroughThePages(i: Invocation, row: Option<Lease>, report: Report, ids: set<nat>, limit: nat)
    requires Honest(i, row, report) && report.Completed? && PagesThrough(i.job, ids, limit)
    ensures var start := DecodeAfterId(i.start);
            var work := Page(ids, start, report.batches * limit);
            && WorkedOn(i, ids, limit, report.batches) == work
            && report.processed == |work| == Lesser(report.batches * limit, |Remaining(ids, start)|)
            && (report.drained ==> forall x <- Remaining(ids, start) :: x in work)
            && (!report.leaseLost ==>
                  && (report.drained <==> |Remaining(ids, start)| < Limit(i.job) * limit)
                  && (report.drained || work != [])
                  && LeftBy(i, row, report).Some?
                  && LeftBy(i, row, report).value.cursor == if report.drained then Null else AfterId(work[|work| - 1]))
  {
    var k := report.batches - 1;
    var start := DecodeAfterId(i.start);
    QuotaIs(report.batches, limit);
    QuotaIs(Limit(i.job), limit);
    var work := Page(ids, start, Quota(report.batches, limit));
    AllFullExactlyWhen(i, k);
    FullBatchesAreOnePage(i, ids, limit, k);
    OneMoreBatch(i, ids, limit, k);
    PageIsFull(ids, start, Quota(report.batches, limit));
    KeptLeaseHoldsTheProgress(i, row, report);
    QuotaGrows(1, report.batches, limit);
    QuotaGrows(report.batches, Limit(i.job), limit);
    if report.drained {
      forall x <- Remaining(ids, start) ensures x in work {
        PageSkipsNothing(ids, start, Quota(report.batches, limit), x);
      }
    }
  }

  class Runner {
    const lease: LeaseRow
    const leaseDuration: nat

    constructor (l: LeaseRow, duration: nat)
      ensures lease == l && leaseDuration == duration
    {
      lease, leaseDuration := l, duration;
    }

    method Drain(job: Job, world: World, owner: OwnerId, start: JobCursor) returns (report: Report)
      modifies lease
      ensures Honest(Invocation(job, world, owner, leaseDuration, start), old(lease.row), report)
      ensures lease.row == LeftBy(Invocation(job, world, owner, leaseDuration, start), old(lease.row), report)
    {
      ghost var i := Invocation(job, world, owner, leaseDuration, start);
      var cursor, batches, processed := start, 0, 0;
      while batches < Limit(job)
        invariant 0 <= batches <= Limit(job)
        invariant cursor == CursorAt(i, batches)
        invariant processed == ProcessedIn(i, batches)
        invariant GoesOn(i, old(lease.row), batches)
        invariant lease.row == RowAfter(i, old(lease.row), batches)
      {
        lease.row := world.rivals(batches, lease.row);
        if job.throws(batches, cursor) {
          return Threw(batches);
        }
        var result := job.run(batches, cursor);
        var now := world.clock(batches);
        batches := batches + 1;
        processed := processed + result.processed;
        cursor := result.nextCursor;
        var stillOwner := lease.TryRenew(owner, now + leaseDuration, cursor, now);
        ghost var k := batches - 1;
        assert result == ResultAt(i, k) && cursor == CursorAt(i, k + 1);
        assert stillOwner <==> RenewedAfter(i, old(lease.row), k).Some?;
        assert lease.row == RowAfter(i, old(lease.row), k + 1);
        assert processed == ProcessedIn(i, k + 1);
        if !stillOwner {
          return Completed(batches, processed, false, true);
        }
        if result.done {
          return Completed(batches, processed, true, false);
        }
        GoesOnOneMore(i, old(lease.row), k);
      }
      return Completed(batches, processed, false, false);
    }

    /** `None` when another live worker holds the lease. Whatever happens in between, the lease is given
        back in the end if it still carries this owner's name, and left alone if it does not. */
    method Run(job: Job, world: World, owner: OwnerId, now: Time) returns (report: Option<Report>)
      modifies lease
      ensures report.Some? <==> MayTakeOver(old(lease.row), owner, now)
      ensures report.None? ==> lease.row == old(lease.row)
      ensures report.Some? ==>
                var acquired := Lease(owner, now + leaseDuration, if old(lease.row).None? then Null else old(lease.row).value.cursor);
                var i := Invocation(job, world, owner, leaseDuration, acquired.cursor);
                && Honest(i, Some(acquired), report.value)
                && lease.row == Release(LeftBy(i, Some(acquired), report.value), owner)
    {
      var acquired := lease.TryAcquire(owner, now + leaseDuration, now);
      if acquired.None? {
        return None;
      }
      var drained := Drain(job, world, owner, acquired.value.cursor);
      lease.Expire(owner);
      return Some(drained);
    }
  }
}
