/** Visibility-filtered pagination over a time-ordered index that only grows at its newest end. */
module Paging {
  import opened Text
  import opened Filtering

  /** Rows oldest first. A cursor is the number of rows older than the resume point. */
  type Cursor = Option<nat>

  datatype Page<T> = Page(rows: seq<T>, next: Cursor)

  /** `rows` newest first, visible ones only. */
  function Visible<T>(rows: seq<T>, keep: T -> bool): seq<T> {
    if rows == [] then []
    else
      var last := rows[|rows| - 1];
      (if keep(last) then [last] else []) + Visible(rows[..|rows| - 1], keep)
  }

  function Reversed<T>(rows: seq<T>): (r: seq<T>)
    ensures |r| == |rows| && forall i :: 0 <= i < |rows| ==> r[i] == rows[|rows| - 1 - i]
  {
    seq(|rows|, i requires 0 <= i < |rows| => rows[|rows| - 1 - i])
  }

  /** The visible rows, each as often as it occurs, newest first. */
  lemma {:induction false} VisibleIsFilter<T>(rows: seq<T>, keep: T -> bool)
    ensures IsFilter(Reversed(rows), keep, Visible(rows, keep))
  {
    if rows == [] {
      FilterOfNone(keep);
      assert Reversed(rows) == [];
    } else {
      var front, last := rows[..|rows| - 1], rows[|rows| - 1];
      VisibleIsFilter(front, keep);
      FilterCons(last, Reversed(front), keep, Visible(front, keep));
      assert [last] + Reversed(front) == Reversed(rows);
    }
  }

  lemma Assoc<T>(a: seq<T>, b: seq<T>, c: seq<T>)
    ensures a + (b + c) == (a + b) + c
  {
  }

  lemma {:induction false} VisibleConcat<T>(a: seq<T>, b: seq<T>, keep: T -> bool)
    ensures Visible(a + b, keep) == Visible(b, keep) + Visible(a, keep)
    decreases |b|
  {
    if b == [] {
      assert a + b == a;
    } else {
      var last := b[|b| - 1];
      assert (a + b)[..|a + b| - 1] == a + b[..|b| - 1];
      VisibleConcat(a, b[..|b| - 1], keep);
      Assoc(if keep(last) then [last] else [], Visible(b[..|b| - 1], keep), Visible(a, keep));
    }
  }

  lemma {:induction false} VisibleMember<T>(rows: seq<T>, keep: T -> bool, x: T)
    ensures x in Visible(rows, keep) <==> x in rows && keep(x)
  {
    if rows != [] {
      var front, last := rows[..|rows| - 1], rows[|rows| - 1];
      VisibleMember(front, keep, x);
      assert rows == front + [last];
    }
  }

  /** A read resumed below row `hi` returned the visible rows of `[lo, hi)` and the matching cursor. */
  ghost predicate ReadFrom<T>(index: seq<T>, hi: nat, lo: nat, keep: T -> bool, rows: seq<T>, next: Cursor) {
    && lo <= hi <= |index|
    && rows == Visible(index[lo..hi], keep)
    && (next.None? ==> lo == 0)
    && (next.Some? ==> next.value == lo)
  }

  /** The store's index: queries are bounded, may be short, and rows may arrive before any of them. */
  class RunIndex<T> {
    var rows: seq<T>

    constructor ()
      ensures rows == []
    {
      rows := [];
    }

    /** One index query; `None` reads from the newest end. */
    method FetchPage(cursor: Cursor, limit: nat) returns (page: Page<T>, ghost lo: nat)
      requires cursor.Some? ==> cursor.value <= |rows|
      modifies this
      ensures old(rows) <= rows
      ensures var hi := if cursor.Some? then cursor.value else |rows|;
              |page.rows| <= limit && ReadFrom(rows, hi, lo, _ => true, page.rows, page.next)
    {
      var arrived: seq<T> := *;
      rows := rows + arrived;
      var hi := if cursor.Some? then cursor.value else |rows|;
      var low: nat :| low <= hi && hi - low <= limit;
      var exhausted: bool := *;
      AllVisible(rows[low..hi]);
      page := Page(Visible(rows[low..hi], _ => true), if low == 0 && exhausted then None else Some(low));
      lo := low;
    }
  }

  lemma {:induction false} AllVisible<T>(rows: seq<T>)
    ensures |Visible(rows, _ => true)| == |rows|
  {
    if rows != [] {
      AllVisible(rows[..|rows| - 1]);
    }
  }

  function Filter<T>(rows: seq<T>, keep: T -> bool): seq<T> {
    if rows == [] then [] else (if keep(rows[0]) then [rows[0]] else []) + Filter(rows[1..], keep)
  }

  lemma {:induction false} FilterVisible<T>(rows: seq<T>, keep: T -> bool)
    ensures Filter(Visible(rows, _ => true), keep) == Visible(rows, keep)
  {
    if rows != [] {
      var front, last := rows[..|rows| - 1], rows[|rows| - 1];
      FilterVisible(front, keep);
      assert ([last] + Visible(front, _ => true))[1..] == Visible(front, _ => true);
    }
  }

  lemma VisibleGrows<T>(index: seq<T>, lo: nat, mid: nat, hi: nat, keep: T -> bool)
    requires lo <= mid <= hi <= |index|
    ensures Visible(index[mid..hi], keep) + Visible(index[lo..mid], keep) == Visible(index[lo..hi], keep)
  {
    assert index[lo..hi] == index[lo..mid] + index[mid..hi];
    VisibleConcat(index[lo..mid], index[mid..hi], keep);
  }

  /** A page read where an earlier read stopped continues it. */
  lemma ReadOn<T>(seen: seq<T>, rows: seq<T>, hi: nat, lo: nat, low: nat, keep: T -> bool, runs: seq<T>, page: Page<T>)
    requires seen <= rows && low <= lo <= hi <= |seen| && runs == Visible(seen[lo..hi], keep)
    requires ReadFrom(rows, lo, low, _ => true, page.rows, page.next)
    ensures ReadFrom(seen, hi, low, keep, runs + Filter(page.rows, keep), page.next)
  {
    assert rows[low..lo] == seen[low..lo];
    FilterVisible(seen[low..lo], keep);
    VisibleGrows(seen, low, lo, hi, keep);
  }

  /**
   * Keep pulling pages until `limit` visible rows are in hand, the index is exhausted, or the page
   * budget is spent. However many rows arrive meanwhile, the result is a read of the index as it
   * stood at the first query (`seen`): every visible row down to the returned cursor, none dropped.
   * `limit` is a floor: short of it, a live cursor means the whole page budget was walked.
   */
  method CollectVisible<T>(index: RunIndex<T>, keep: T -> bool, limit: nat, start: Cursor, maxPages: nat)
    returns (runs: seq<T>, next: Cursor, ghost seen: seq<T>, ghost lo: nat, ghost walked: nat)
    requires start.Some? ==> start.value <= |index.rows|
    modifies index
    ensures old(index.rows) <= seen <= index.rows
    ensures maxPages > 0 ==> ReadFrom(seen, if start.Some? then start.value else |seen|, lo, keep, runs, next)
    ensures maxPages > 0 ==> IsFilter(Reversed(seen[lo..if start.Some? then start.value else |seen|]), keep, runs)
    ensures maxPages == 0 ==> runs == [] && next == start
    ensures walked <= maxPages && (next.Some? && |runs| < limit ==> walked == maxPages)
  {
    if maxPages == 0 {
      return [], start, index.rows, 0, 0;
    }
    var res, low := index.FetchPage(start, limit);
    seen := index.rows;
    ghost var hi := if start.Some? then start.value else |seen|;
    assert seen[hi..hi] == [];
    ReadOn(seen, seen, hi, hi, low, keep, [], res);
    assert [] + Filter(res.rows, keep) == Filter(res.rows, keep);
    runs, next, lo, walked := Filter(res.rows, keep), res.next, low, 1;
    var page := 1;
    while page < maxPages && next != None && |runs| < limit
      invariant page <= maxPages && walked == page
      invariant old(index.rows) <= seen <= index.rows
      invariant ReadFrom(seen, hi, lo, keep, runs, next)
    {
      res, low := index.FetchPage(next, limit);
      ReadOn(seen, index.rows, hi, lo, low, keep, runs, res);
      runs, next, lo := runs + Filter(res.rows, keep), res.next, low;
      walked, page := walked + 1, page + 1;
    }
    VisibleIsFilter(seen[lo..hi], keep);
  }
}
