/** Keyset paging: bounded batches over ids in ascending order, resumable from a persisted cursor. */
module Paging {
  import opened Prelude

  /** A persisted cursor; anything a job does not recognise is `Other`. */
  datatype JobCursor = Null | AfterId(id: nat) | Other(text: string)

  datatype BatchResult = BatchResult(processed: nat, nextCursor: JobCursor, done: bool)

  function DecodeAfterId(cursor: JobCursor): Option<nat> {
    match cursor
    case AfterId(id) => Some(id)
    case _ => None
  }

  function EncodeBatchCursor(drained: bool, lastId: Option<nat>): JobCursor {
    if drained || lastId.None? then Null else AfterId(lastId.value)
  }

  function LastOf(page: seq<nat>): Option<nat> {
    if page == [] then None else Some(page[|page| - 1])
  }

  predicate Beyond(id: nat, after: Option<nat>) { after.None? || after.value < id }

  function Remaining(ids: set<nat>, after: Option<nat>): set<nat> {
    set x | x in ids && Beyond(x, after)
  }

  predicate IsLeast(ids: set<nat>, m: nat) { m in ids && forall x <- ids :: m <= x }

  lemma {:induction false} LeastExists(ids: set<nat>)
    requires ids != {}
    ensures exists m :: IsLeast(ids, m)
    decreases |ids|
  {
    var y :| y in ids;
    var others := ids - {y};
    assert forall x <- ids :: x == y || x in others;
    if others == {} {
      assert IsLeast(ids, y);
    } else {
      LeastExists(others);
      var m :| IsLeast(others, m);
      assert IsLeast(ids, if m < y then m else y);
    }
  }

  function Least(ids: set<nat>): (m: nat)
    requires ids != {}
    ensures IsLeast(ids, m)
  {
    LeastExists(ids);
    var m: nat :| m in ids && IsLeast(ids, m);
    m
  }

  /** At most `limit` ids beyond the cursor, smallest first. */
  function Page(ids: set<nat>, after: Option<nat>, limit: nat): (page: seq<nat>)
    ensures |page| <= limit
    ensures forall i :: 0 <= i < |page| ==> page[i] in ids && Beyond(page[i], after)
    ensures forall i, j :: 0 <= i < j < |page| ==> page[i] < page[j]
    decreases limit
  {
    var rest := Remaining(ids, after);
    if limit == 0 || rest == {} then []
    else
      var m := Least(rest);
      var tail := Page(ids, Some(m), limit - 1);
      [m] + tail
  }

  /** What a page has dealt with: everything beyond the cursor up to its last id, and everything
      beyond the cursor when it came back short. */
  predicate Reached(x: nat, after: Option<nat>, limit: nat, page: seq<nat>) {
    Beyond(x, after) && (|page| < limit || (page != [] && x <= page[|page| - 1]))
  }

  /** A page skips nothing it has reached. */
  lemma {:induction false} PageSkipsNothing(ids: set<nat>, after: Option<nat>, limit: nat, x: nat)
    requires x in ids && Reached(x, after, limit, Page(ids, after, limit))
    ensures x in Page(ids, after, limit)
    decreases limit
  {
    var rest := Remaining(ids, after);
    assert x in rest;
    if limit == 0 {
    } else {
      var m := Least(rest);
      var tail := Page(ids, Some(m), limit - 1);
      assert Page(ids, after, limit) == [m] + tail;
      if x != m {
        assert Reached(x, Some(m), limit - 1, tail);
        PageSkipsNothing(ids, Some(m), limit - 1, x);
      }
    }
  }

  function Lesser(a: nat, b: nat): nat { if a < b then a else b }

  /** A page is as long as it may be. */
  lemma {:induction false} PageIsFull(ids: set<nat>, after: Option<nat>, limit: nat)
    ensures |Page(ids, after, limit)| == Lesser(limit, |Remaining(ids, after)|)
    decreases limit
  {
    var rest := Remaining(ids, after);
    if limit == 0 || rest == {} {
    } else {
      var m := Least(rest);
      assert Remaining(ids, Some(m)) == rest - {m};
      PageIsFull(ids, Some(m), limit - 1);
    }
  }

  lemma PageUnfolds(ids: set<nat>, after: Option<nat>, n: nat)
    requires n > 0 && Remaining(ids, after) != {}
    ensures Page(ids, after, n) == [Least(Remaining(ids, after))] + Page(ids, Some(Least(Remaining(ids, after))), n - 1)
  {
  }

  lemma LastBehind(first: nat, tail: seq<nat>)
    ensures LastOf([first] + tail) == if tail == [] then Some(first) else LastOf(tail)
  {
  }

  /** A full page and the page behind its last id are one longer page: nothing is skipped between them,
      and nothing comes twice. */
  lemma {:induction false} PagesJoin(ids: set<nat>, after: Option<nat>, m: nat, n: nat)
    requires m > 0 && |Page(ids, after, m)| == m
    ensures Page(ids, after, m + n) == Page(ids, after, m) + Page(ids, LastOf(Page(ids, after, m)), n)
    decreases m
  {
    var least := Least(Remaining(ids, after));
    var tail := Page(ids, Some(least), m - 1);
    PageUnfolds(ids, after, m);
    PageUnfolds(ids, after, m + n);
    LastBehind(least, tail);
    if m == 1 {
    } else {
      PagesJoin(ids, Some(least), m - 1, n);
    }
  }

  /** The same from wherever the pages began: `next` is where the one before them stopped. */
  lemma OneMorePage(ids: set<nat>, start: Option<nat>, m: nat, next: Option<nat>, limit: nat)
    requires |Page(ids, start, m)| == m && limit > 0
    requires next == if m == 0 then start else LastOf(Page(ids, start, m))
    ensures Page(ids, start, m + limit) == Page(ids, start, m) + Page(ids, next, limit)
    ensures |Page(ids, start, m + limit)| == m + |Page(ids, next, limit)|
    ensures |Page(ids, next, limit)| > 0 ==> LastOf(Page(ids, start, m + limit)) == LastOf(Page(ids, next, limit))
  {
    if m == 0 {
      assert Page(ids, start, m) == [];
    } else {
      PagesJoin(ids, start, m, limit);
    }
  }
}
