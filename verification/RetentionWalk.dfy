/** The retention job: a walk over several passes, each paged by id, resumed from a two-level cursor. */
module RetentionWalk {
  import opened Prelude
  import opened Paging

  datatype Pass = SmsRaw | Otp | HeartbeatMetadata | SecurityLog | RateLimitCounter

  const PASSES: seq<Pass> := [SmsRaw, Otp, HeartbeatMetadata, SecurityLog, RateLimitCounter]

  /** A persisted cursor; `Unrecognised` stands for any shape without a known pass. */
  datatype Cursor = Null | Unrecognised | InPass(pass: Pass, afterId: Option<nat>)

  /** The due records of each pass. */
  type Records = seq<set<nat>>

  predicate Valid(due: Records) { |due| == |PASSES| }

  datatype Disposal = Disposal(pass: nat, id: nat)

  datatype Batch = Batch(due: Records, disposed: seq<Disposal>, nextCursor: Cursor, done: bool)

  function IndexOf(pass: Pass): (i: nat)
    ensures i < |PASSES| && PASSES[i] == pass
  {
    match pass
    case SmsRaw => 0
    case Otp => 1
    case HeartbeatMetadata => 2
    case SecurityLog => 3
    case RateLimitCounter => 4
  }

  function Decode(cursor: Cursor): (r: (nat, Option<nat>))
    ensures r.0 < |PASSES|
  {
    match cursor
    case InPass(pass, afterId) => (IndexOf(pass), afterId)
    case _ => (0, None)
  }

  /** Where the walk goes once a pass is drained, and whether the sweep is over. */
  function AdvanceCursor(index: nat): (Cursor, bool) {
    if index + 1 < |PASSES| then (InPass(PASSES[index + 1], None), false) else (Cursor.Null, true)
  }

  function Disposals(index: nat, page: seq<nat>): (r: seq<Disposal>)
    ensures |r| == |page| && forall i :: 0 <= i < |r| ==> r[i] == Disposal(index, page[i])
  {
    seq(|page|, i requires 0 <= i < |page| => Disposal(index, page[i]))
  }

  function RunBatch(due: Records, cursor: Cursor, limit: nat): Batch
    requires Valid(due) && limit >= 1
  {
    var (index, after) := Decode(cursor);
    var page := Page(due[index], after, limit);
    var left := due[index := due[index] - (set x | x in page)];
    if |page| == limit then
      Batch(left, Disposals(index, page), InPass(PASSES[index], LastOf(page)), false)
    else
      var (next, done) := AdvanceCursor(index);
      Batch(left, Disposals(index, page), next, done)
  }

  // ---------------------------------------------------------------------------
  // Repeated batches on fixed data
  // ---------------------------------------------------------------------------

  function RowsLeft(due: Records, cursor: Cursor): nat
    requires Valid(due)
  {
    var (index, after) := Decode(cursor);
    |Remaining(due[index], after)|
  }

  function PassesLeft(cursor: Cursor): nat { |PASSES| - Decode(cursor).0 }

  lemma IndexRoundTrip(i: nat)
    requires i < |PASSES|
    ensures IndexOf(PASSES[i]) == i
  {
    assert forall p: Pass :: IndexOf(p) == 0 <==> p == SmsRaw;
  }

  /** Every batch that does not end the sweep has fewer passes left, or as many passes and fewer rows. */
  lemma BatchProgresses(due: Records, cursor: Cursor, limit: nat)
    requires Valid(due) && limit >= 1 && !RunBatch(due, cursor, limit).done
    ensures var b := RunBatch(due, cursor, limit);
            || PassesLeft(b.nextCursor) < PassesLeft(cursor)
            || (PassesLeft(b.nextCursor) == PassesLeft(cursor) && RowsLeft(b.due, b.nextCursor) < RowsLeft(due, cursor))
  {
    var (index, after) := Decode(cursor);
    var page := Page(due[index], after, limit);
    IndexRoundTrip(index);
    if |page| == limit {
      var b := RunBatch(due, cursor, limit);
      var now, later := Remaining(due[index], after), Remaining(b.due[index], LastOf(page));
      assert page[0] in now && page[0] !in later && later <= now;
      assert later <= now - {page[0]};
      SubsetCount(later, now - {page[0]});
    } else if index + 1 < |PASSES| {
      IndexRoundTrip(index + 1);
    }
  }

  lemma {:induction false} SubsetCount<T>(a: set<T>, b: set<T>)
    requires a <= b
    ensures |a| <= |b|
  {
    assert b == a + (b - a);
  }

  /** A whole sweep: batches until one reports that it is done. */
  function Sweep(due: Records, cursor: Cursor, limit: nat): Batch
    requires Valid(due) && limit >= 1
    decreases PassesLeft(cursor), RowsLeft(due, cursor)
  {
    var b := RunBatch(due, cursor, limit);
    if b.done then b
    else
      BatchProgresses(due, cursor, limit);
      var rest := Sweep(b.due, b.nextCursor, limit);
      Batch(rest.due, b.disposed + rest.disposed, rest.nextCursor, rest.done)
  }

  // ---------------------------------------------------------------------------
  // What a sweep disposes of
  // ---------------------------------------------------------------------------

  /** The record is still ahead of the cursor: in a later pass, or further on in the current one. */
  predicate Ahead(cursor: Cursor, d: Disposal) {
    var (index, after) := Decode(cursor);
    d.pass > index || (d.pass == index && Beyond(d.id, after))
  }

  predicate IsDue(due: Records, d: Disposal) { d.pass < |due| && d.id in due[d.pass] }

  predicate Before(x: Disposal, y: Disposal) { x.pass < y.pass || (x.pass == y.pass && x.id < y.id) }

  predicate InOrder(log: seq<Disposal>) { forall i, j :: 0 <= i < j < |log| ==> Before(log[i], log[j]) }

  ghost predicate DisposesExactlyAhead(due: Records, cursor: Cursor, after: Records, log: seq<Disposal>) {
    && Valid(after) && InOrder(log)
    && (forall d: Disposal {:trigger d in log} {:trigger IsDue(due, d)} :: d in log <==> IsDue(due, d) && Ahead(cursor, d))
    && (forall d: Disposal {:trigger IsDue(after, d)} :: IsDue(after, d) <==> IsDue(due, d) && !Ahead(cursor, d))
  }

  lemma DisposalsAre(index: nat, page: seq<nat>, d: Disposal)
    ensures d in Disposals(index, page) <==> d.pass == index && d.id in page
  {
    if d.pass == index && d.id in page {
      var i :| 0 <= i < |page| && page[i] == d.id;
      assert Disposals(index, page)[i] == d;
    }
  }

  /** What the next cursor has put behind it: the page when it was full, the whole pass when it was not. */
  lemma NextCursorPasses(due: Records, cursor: Cursor, limit: nat, d: Disposal)
    requires Valid(due) && limit >= 1 && !RunBatch(due, cursor, limit).done
    ensures var (index, after) := Decode(cursor);
            var page := Page(due[index], after, limit);
            Ahead(RunBatch(due, cursor, limit).nextCursor, d)
            <==> d.pass > index || (d.pass == index && |page| == limit && d.id > page[|page| - 1])
  {
    var (index, after) := Decode(cursor);
    IndexRoundTrip(index);
    if index + 1 < |PASSES| { IndexRoundTrip(index + 1); }
  }

  /** One batch disposes of its page and leaves everything beyond it ahead of the new cursor. */
  lemma BatchSplitsAhead(due: Records, cursor: Cursor, limit: nat, d: Disposal)
    requires Valid(due) && limit >= 1 && IsDue(due, d)
    ensures var b := RunBatch(due, cursor, limit);
            && (d in b.disposed <==> Ahead(cursor, d) && (b.done || !Ahead(b.nextCursor, d)))
            && (IsDue(b.due, d) <==> d !in b.disposed)
            && (!b.done && Ahead(b.nextCursor, d) ==> Ahead(cursor, d))
  {
    var (index, after) := Decode(cursor);
    var page := Page(due[index], after, limit);
    DisposalsAre(index, page, d);
    if !RunBatch(due, cursor, limit).done { NextCursorPasses(due, cursor, limit, d); }
    if d.pass == index && Reached(d.id, after, limit, page) { PageSkipsNothing(due[index], after, limit, d.id); }
  }

  lemma BatchInOrder(due: Records, cursor: Cursor, limit: nat)
    requires Valid(due) && limit >= 1
    ensures var b := RunBatch(due, cursor, limit);
            InOrder(b.disposed) && Valid(b.due)
            && (forall d: Disposal :: IsDue(b.due, d) ==> IsDue(due, d))
            && (forall d: Disposal :: d in b.disposed ==> IsDue(due, d))
  {
  }

  lemma JoinInOrder(first: seq<Disposal>, second: seq<Disposal>)
    requires InOrder(first) && InOrder(second)
    requires forall x <- first, y <- second :: Before(x, y)
    ensures InOrder(first + second)
  {
  }

  /** On fixed data a sweep ends, visits the passes in order, and disposes of exactly the due records
      ahead of its cursor, each exactly once; the next sweep starts at the first pass. */
  lemma {:induction false} SweepDisposesExactlyWhatIsAhead(due: Records, cursor: Cursor, limit: nat)
    requires Valid(due) && limit >= 1
    ensures var sweep := Sweep(due, cursor, limit);
            sweep.done && sweep.nextCursor == Cursor.Null && DisposesExactlyAhead(due, cursor, sweep.due, sweep.disposed)
    decreases PassesLeft(cursor), RowsLeft(due, cursor)
  {
    var b := RunBatch(due, cursor, limit);
    BatchInOrder(due, cursor, limit);
    forall d: Disposal | IsDue(due, d)
      ensures (d in b.disposed <==> Ahead(cursor, d) && (b.done || !Ahead(b.nextCursor, d)))
              && (IsDue(b.due, d) <==> d !in b.disposed)
              && (!b.done && Ahead(b.nextCursor, d) ==> Ahead(cursor, d))
    {
      BatchSplitsAhead(due, cursor, limit, d);
    }
    if !b.done {
      BatchProgresses(due, cursor, limit);
      SweepDisposesExactlyWhatIsAhead(b.due, b.nextCursor, limit);
      var rest := Sweep(b.due, b.nextCursor, limit);
      forall x <- b.disposed, y <- rest.disposed ensures Before(x, y) {
        assert IsDue(b.due, y) && Ahead(b.nextCursor, y) && !Ahead(b.nextCursor, x);
      }
      JoinInOrder(b.disposed, rest.disposed);
      forall d: Disposal ensures d in b.disposed + rest.disposed <==> IsDue(due, d) && Ahead(cursor, d) {
        assert d in rest.disposed <==> IsDue(b.due, d) && Ahead(b.nextCursor, d);
      }
    }
  }

  /** From a null or unrecognised cursor nothing that is due survives. */
  lemma FreshSweepDisposesOfEverything(due: Records, cursor: Cursor, limit: nat, d: Disposal)
    requires Valid(due) && limit >= 1 && !cursor.InPass?
    ensures !IsDue(Sweep(due, cursor, limit).due, d)
    ensures d in Sweep(due, cursor, limit).disposed <==> IsDue(due, d)
  {
    SweepDisposesExactlyWhatIsAhead(due, cursor, limit);
  }

  // ---------------------------------------------------------------------------
  // The program
  // ---------------------------------------------------------------------------

  class RetentionJob {
    var due: Records
    const batchSize: nat

    constructor (records: Records, size: int)
      requires Valid(records)
      ensures due == records && batchSize >= 1 && (size >= 1 ==> batchSize == size)
    {
      due := records;
      batchSize := if size < 1 then 1 else size;
    }

    method RunOneBatch(cursor: Cursor) returns (processed: nat, nextCursor: Cursor, done: bool)
      requires Valid(due) && batchSize >= 1
      modifies this
      ensures var b := RunBatch(old(due), cursor, batchSize);
              due == b.due && processed == |b.disposed| && nextCursor == b.nextCursor && done == b.done
    {
      var (index, after) := Decode(cursor);
      var page := Page(due[index], after, batchSize);
      due := due[index := due[index] - (set x | x in page)];
      if |page| == batchSize {
        return |page|, InPass(PASSES[index], LastOf(page)), false;
      }
      var (next, finished) := AdvanceCursor(index);
      return |page|, next, finished;
    }

    /** Batches in succession until one reports that it is done. */
    method DrainAll(start: Cursor) returns (processed: nat)
      requires Valid(due) && batchSize >= 1
      modifies this
      ensures due == Sweep(old(due), start, batchSize).due
      ensures processed == |Sweep(old(due), start, batchSize).disposed|
    {
      var cursor, done := start, false;
      processed := 0;
      while !done
        invariant Valid(due)
        invariant var whole := Sweep(old(due), start, batchSize);
                  if done then due == whole.due && processed == |whole.disposed|
                  else var rest := Sweep(due, cursor, batchSize);
                       rest.due == whole.due && processed + |rest.disposed| == |whole.disposed|
        decreases !done, PassesLeft(cursor), RowsLeft(due, cursor)
      {
        if !RunBatch(due, cursor, batchSize).done { BatchProgresses(due, cursor, batchSize); }
        var count, next, finished := RunOneBatch(cursor);
        processed, cursor, done := processed + count, next, finished;
      }
    }
  }
}
