/** The single-holder lease of a job, with the cursor its work resumes from. */
module JobLease {
  import opened Prelude
  import opened Paging

  /** Minted afresh for every invocation of the runner. */
  type OwnerId = nat

  datatype Lease = Lease(owner: OwnerId, until: Time, cursor: JobCursor)

  function Acquire(row: Option<Lease>, owner: OwnerId, until: Time, now: Time): Option<Lease> {
    match row
    case None => Some(Lease(owner, until, Null))
    case Some(lease) =>
      // A takeover keeps the cursor.
      if lease.until <= now || lease.owner == owner then Some(lease.(owner := owner, until := until)) else None
  }

  function Renew(row: Option<Lease>, owner: OwnerId, until: Time, cursor: JobCursor, now: Time): Option<Lease> {
    if row.None? || row.value.owner != owner || row.value.until <= now then None
    else Some(Lease(owner, until, cursor))
  }

  function Release(row: Option<Lease>, owner: OwnerId): Option<Lease> {
    if row.None? || row.value.owner != owner then row else Some(row.value.(until := 0))
  }

  /** When a would-be owner may take the lease. */
  predicate MayTakeOver(row: Option<Lease>, owner: OwnerId, now: Time) {
    row.None? || row.value.owner == owner || row.value.until <= now
  }

  /** The guarded statement takes the lease exactly when the pure decision allows it, and never moves the cursor. */
  lemma AcquiredExactlyWhenAllowed(row: Option<Lease>, owner: OwnerId, until: Time, now: Time)
    ensures Acquire(row, owner, until, now).Some? <==> MayTakeOver(row, owner, now)
    ensures MayTakeOver(row, owner, now) ==>
              Acquire(row, owner, until, now).value == Lease(owner, until, if row.None? then Null else row.value.cursor)
  {
  }

  /** At every instant a held lease either can be renewed by its owner or taken over by others, never both
      and never neither; and one given back can be taken at once. */
  lemma RenewableExactlyWhileNobodyElseMayTakeOver(
    row: Option<Lease>, owner: OwnerId, other: OwnerId, until: Time, cursor: JobCursor, now: Time)
    requires row.Some? && row.value.owner == owner && other != owner
    ensures Renew(row, owner, until, cursor, now) == if Acquire(row, other, until, now).None? then Some(Lease(owner, until, cursor)) else None
    ensures Acquire(Release(row, owner), other, until, now) == Some(Lease(other, until, row.value.cursor))
  {
  }

  /** Neither a renewal nor a release of a former owner leaves a mark on its successor's lease. */
  lemma FormerOwnerIsPowerless(row: Option<Lease>, owner: OwnerId, until: Time, cursor: JobCursor, now: Time)
    requires row.Some? && row.value.owner != owner
    ensures Renew(row, owner, until, cursor, now) == None && Release(row, owner) == row
  {
  }

  /** The lease row of one job, written by single conditional statements. */
  class LeaseRow {
    var row: Option<Lease>

    constructor ()
      ensures row == None
    {
      row := None;
    }

    method TryAcquire(owner: OwnerId, until: Time, now: Time) returns (acquired: Option<Lease>)
      modifies this
      ensures acquired == Acquire(old(row), owner, until, now)
      ensures row == if acquired.Some? then acquired else old(row)
    {
      if row.None? {
        row := Some(Lease(owner, until, Null));
        return row;
      }
      if row.value.until <= now || row.value.owner == owner {
        row := Some(row.value.(owner := owner, until := until));
        return row;
      }
      return None;
    }

    method TryRenew(owner: OwnerId, until: Time, cursor: JobCursor, now: Time) returns (renewed: bool)
      modifies this
      ensures renewed <==> Renew(old(row), owner, until, cursor, now).Some?
      ensures row == if renewed then Renew(old(row), owner, until, cursor, now) else old(row)
    {
      if row.None? || row.value.owner != owner || row.value.until <= now {
        return false;
      }
      row := Some(Lease(owner, until, cursor));
      return true;
    }

    method Expire(owner: OwnerId)
      modifies this
      ensures row == Release(old(row), owner)
    {
      if row.Some? && row.value.owner == owner {
        row := Some(row.value.(until := 0));
      }
    }
  }
}
