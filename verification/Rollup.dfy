/**
 * Run-level rollups folded from per-job rows.
 *
 * A rollup of some of a run's jobs is a bound on the rollup of all of them, never a wrong fact; and
 * when the loaded window is exact, each group is the whole run.
 */
module Rollup {
  import opened Text
  import opened Filtering
  import opened RunWindow

  datatype Status = Queued | Provisioning | Running | Completed | Failed | TimedOut

  /** Timestamps in milliseconds; `None` is one that does not parse. */
  datatype Row = Row(key: Key, status: Status, created: Option<int>, updated: Option<int>, seconds: int)

  type RunId = (nat, nat)

  function RunOf(key: Key): RunId {
    (key.0, key.1)
  }

  // ---- status fold ----------------------------------------------------------------------------------

  const FOLD_ORDER := [Failed, TimedOut, Running, Provisioning, Queued, Completed]

  function FoldFrom(order: seq<Status>, statuses: seq<Status>): Status {
    if order == [] then Queued
    else if order[0] in statuses then order[0]
    else FoldFrom(order[1..], statuses)
  }

  function FoldRunStatus(statuses: seq<Status>): Status {
    FoldFrom(FOLD_ORDER, statuses)
  }

  /** Position in the precedence, highest first. */
  function Rank(s: Status): nat {
    match s
    case Failed => 0
    case TimedOut => 1
    case Running => 2
    case Provisioning => 3
    case Queued => 4
    case Completed => 5
  }

  lemma {:induction false} FoldTakesFirst(order: seq<Status>, statuses: seq<Status>, k: nat)
    requires k < |order| && order[k] in statuses && forall i :: 0 <= i < k ==> order[i] !in statuses
    ensures FoldFrom(order, statuses) == order[k]
  {
    if k > 0 {
      assert order[0] !in statuses;
      FoldTakesFirst(order[1..], statuses, k - 1);
    }
  }

  lemma {:induction false} FirstPresent(order: seq<Status>, statuses: seq<Status>, n: nat) returns (k: nat)
    requires n < |order| && order[n] in statuses
    ensures k <= n && order[k] in statuses && forall i :: 0 <= i < k ==> order[i] !in statuses
  {
    k := 0;
    while order[k] !in statuses
      invariant k <= n && forall i :: 0 <= i < k ==> order[i] !in statuses
      decreases n - k
    {
      k := k + 1;
    }
  }

  /**
   * The fold is the highest-precedence status present: nothing present outranks it. `completed`
   * therefore surfaces exactly when there are jobs and every one completed.
   */
  lemma FoldIsHighest(statuses: seq<Status>)
    requires statuses != []
    ensures FoldRunStatus(statuses) in statuses
    ensures forall s :: s in statuses ==> Rank(FoldRunStatus(statuses)) <= Rank(s)
    ensures FoldRunStatus(statuses) == Completed <==> forall s :: s in statuses ==> s == Completed
  {
    assert forall s: Status :: Rank(s) < |FOLD_ORDER| && FOLD_ORDER[Rank(s)] == s;
    assert statuses[0] in statuses;
    var k := FirstPresent(FOLD_ORDER, statuses, Rank(statuses[0]));
    FoldTakesFirst(FOLD_ORDER, statuses, k);
    assert Rank(FOLD_ORDER[k]) == k;
    forall s | s in statuses ensures k <= Rank(s) {
      assert FOLD_ORDER[Rank(s)] in statuses;
    }
  }

  // ---- durations ------------------------------------------------------------------------------------

  function Max0(x: int): nat {
    if x < 0 then 0 else x
  }

  function JobTime(jobs: seq<Row>): nat {
    if jobs == [] then 0 else JobTime(jobs[..|jobs| - 1]) + Max0(jobs[|jobs| - 1].seconds)
  }

  ghost predicate IsEarliest(jobs: seq<Row>, t: Option<int>) {
    && (t.None? ==> forall i :: 0 <= i < |jobs| ==> jobs[i].created.None?)
    && (t.Some? ==> (exists i :: 0 <= i < |jobs| && jobs[i].created == t)
                    && forall i :: 0 <= i < |jobs| && jobs[i].created.Some? ==> t.value <= jobs[i].created.value)
  }

  ghost predicate IsLatest(jobs: seq<Row>, t: Option<int>) {
    && (t.None? ==> forall i :: 0 <= i < |jobs| ==> jobs[i].updated.None?)
    && (t.Some? ==> (exists i :: 0 <= i < |jobs| && jobs[i].updated == t)
                    && forall i :: 0 <= i < |jobs| && jobs[i].updated.Some? ==> jobs[i].updated.value <= t.value)
  }

  /** Milliseconds to whole seconds, halves up; an inverted or unknown span is 0. */
  function SpanSeconds(earliest: Option<int>, latest: Option<int>): nat {
    if earliest.Some? && latest.Some? && latest.value > earliest.value
    then (latest.value - earliest.value + 500) / 1000
    else 0
  }

  /** Within half a second of the span, and 0 when it is inverted or unknown. */
  lemma SpanIsNearest(earliest: Option<int>, latest: Option<int>)
    ensures var seconds := SpanSeconds(earliest, latest);
            if earliest.Some? && latest.Some? && earliest.value < latest.value
            then -500 < 1000 * seconds - (latest.value - earliest.value) <= 500
            else seconds == 0
  {
  }

  lemma EarliestAppends(front: seq<Row>, j: Row, t: Option<int>, t': Option<int>)
    requires IsEarliest(front, t)
    requires t' == if j.created.Some? && (t.None? || j.created.value < t.value) then j.created else t
    ensures IsEarliest(front + [j], t')
  {
    var rows := front + [j];
    assert rows[|front|] == j && forall i :: 0 <= i < |front| ==> rows[i] == front[i];
  }

  lemma LatestAppends(front: seq<Row>, j: Row, t: Option<int>, t': Option<int>)
    requires IsLatest(front, t)
    requires t' == if j.updated.Some? && (t.None? || j.updated.value > t.value) then j.updated else t
    ensures IsLatest(front + [j], t')
  {
    var rows := front + [j];
    assert rows[|front|] == j && forall i :: 0 <= i < |front| ==> rows[i] == front[i];
  }

  lemma JobTimeAppends(front: seq<Row>, j: Row)
    ensures JobTime(front + [j]) == JobTime(front) + Max0(j.seconds)
  {
    assert (front + [j])[..|front|] == front;
  }

  /** The durations of the first `n` jobs, a negative one counting nothing. */
  ghost function Seconds(jobs: seq<Row>, n: nat): int
    requires n <= |jobs|
  {
    if n == 0 then 0 else Seconds(jobs, n - 1) + if jobs[n - 1].seconds > 0 then jobs[n - 1].seconds else 0
  }

  lemma {:induction false} JobTimeIs(jobs: seq<Row>, n: nat)
    requires n <= |jobs|
    ensures JobTime(jobs[..n]) == Seconds(jobs, n)
  {
    if n > 0 {
      JobTimeIs(jobs, n - 1);
      assert jobs[..n] == jobs[..n - 1] + [jobs[n - 1]];
      JobTimeAppends(jobs[..n - 1], jobs[n - 1]);
    }
  }

  /** Wall clock from the earliest start to the latest transition; job time is the sum of the clamped durations. */
  method RunDurations(jobs: seq<Row>)
    returns (wallClock: nat, jobTime: nat, ghost earliest: Option<int>, ghost latest: Option<int>)
    ensures IsEarliest(jobs, earliest) && IsLatest(jobs, latest)
    ensures wallClock == SpanSeconds(earliest, latest) && jobTime == JobTime(jobs)
    ensures jobTime == Seconds(jobs, |jobs|)
  {
    var first, last: Option<int> := None, None;
    jobTime := 0;
    for i := 0 to |jobs|
      invariant IsEarliest(jobs[..i], first) && IsLatest(jobs[..i], last)
      invariant jobTime == JobTime(jobs[..i])
    {
      var j := jobs[i];
      assert jobs[..i + 1] == jobs[..i] + [j];
      ghost var first0, last0 := first, last;
      jobTime := jobTime + Max0(j.seconds);
      JobTimeAppends(jobs[..i], j);
      if j.created.Some? && (first.None? || j.created.value < first.value) {
        first := j.created;
      }
      EarliestAppends(jobs[..i], j, first0, first);
      if j.updated.Some? && (last.None? || j.updated.value > last.value) {
        last := j.updated;
      }
      LatestAppends(jobs[..i], j, last0, last);
    }
    assert jobs[..|jobs|] == jobs;
    JobTimeIs(jobs, |jobs|);
    wallClock := SpanSeconds(first, last);
    earliest, latest := first, last;
  }

  // ---- a part of a run bounds the whole ---------------------------------------------------------------

  ghost predicate DistinctRows(rows: seq<Row>) {
    forall i, j :: 0 <= i < j < |rows| ==> rows[i].key != rows[j].key
  }

  function Without(rows: seq<Row>, k: nat): seq<Row>
    requires k < |rows|
  {
    rows[..k] + rows[k + 1..]
  }

  lemma {:induction false} JobTimeConcat(a: seq<Row>, b: seq<Row>)
    ensures JobTime(a + b) == JobTime(a) + JobTime(b)
    decreases |b|
  {
    if b == [] {
      assert a + b == a;
    } else {
      assert (a + b)[..|a + b| - 1] == a + b[..|b| - 1];
      JobTimeConcat(a, b[..|b| - 1]);
    }
  }

  lemma JobTimeAround(a: seq<Row>, x: Row, b: seq<Row>)
    ensures JobTime(a + [x] + b) == JobTime(a + b) + Max0(x.seconds)
  {
    JobTimeConcat(a + [x], b);
    JobTimeConcat(a, b);
    assert (a + [x])[..|a|] == a;
  }

  lemma Pieces(rows: seq<Row>, k: nat)
    requires k < |rows|
    ensures rows == rows[..k] + [rows[k]] + rows[k + 1..]
  {
  }

  lemma JobTimeOf(rows: seq<Row>, a: seq<Row>, x: Row, b: seq<Row>)
    requires rows == a + [x] + b
    ensures JobTime(rows) == JobTime(a + b) + Max0(x.seconds)
  {
    JobTimeAround(a, x, b);
  }

  lemma JobTimeWithout(rows: seq<Row>, k: nat)
    requires k < |rows|
    ensures JobTime(rows) == JobTime(Without(rows, k)) + Max0(rows[k].seconds)
  {
    Pieces(rows, k);
    JobTimeOf(rows, rows[..k], rows[k], rows[k + 1..]);
  }

  lemma WithoutKeeps(rows: seq<Row>, k: nat, x: Row)
    requires k < |rows| && x in rows && x != rows[k]
    ensures x in Without(rows, k)
  {
    var i :| 0 <= i < |rows| && rows[i] == x;
    if i < k {
      assert Without(rows, k)[i] == x;
    } else {
      assert Without(rows, k)[i - 1] == x;
    }
  }

  lemma {:induction false} PartTakesNoLonger(part: seq<Row>, whole: seq<Row>)
    requires DistinctRows(part) && forall i :: 0 <= i < |part| ==> part[i] in whole
    ensures |part| <= |whole| && JobTime(part) <= JobTime(whole)
  {
    if part != [] {
      var front, last := part[..|part| - 1], part[|part| - 1];
      var k :| 0 <= k < |whole| && whole[k] == last;
      forall i | 0 <= i < |front| ensures front[i] in Without(whole, k) {
        WithoutKeeps(whole, k, front[i]);
      }
      PartTakesNoLonger(front, Without(whole, k));
      JobTimeWithout(whole, k);
    }
  }

  function Statuses(rows: seq<Row>): (s: seq<Status>)
    ensures |s| == |rows| && forall i :: 0 <= i < |rows| ==> s[i] == rows[i].status
  {
    seq(|rows|, i requires 0 <= i < |rows| => rows[i].status)
  }

  /**
   * Rollups of a partial window are bounds: the run has at least this many jobs, took at least this
   * long on the clock and in total, started no later, and its status ranks at least as high.
   */
  lemma PartBoundsWhole(part: seq<Row>, whole: seq<Row>, e: Option<int>, l: Option<int>, e': Option<int>, l': Option<int>)
    requires part != [] && DistinctRows(part) && forall i :: 0 <= i < |part| ==> part[i] in whole
    requires IsEarliest(part, e) && IsLatest(part, l) && IsEarliest(whole, e') && IsLatest(whole, l')
    ensures |part| <= |whole| && JobTime(part) <= JobTime(whole)
    ensures SpanSeconds(e, l) <= SpanSeconds(e', l')
    ensures e.Some? ==> e'.Some? && e'.value <= e.value
    ensures Rank(FoldRunStatus(Statuses(whole))) <= Rank(FoldRunStatus(Statuses(part)))
  {
    PartTakesNoLonger(part, whole);
    PartStartsNoEarlier(part, whole, e, l, e', l');
    FoldIsHighest(Statuses(part));
    FoldIsHighest(Statuses(whole));
    var i :| 0 <= i < |part| && Statuses(part)[i] == FoldRunStatus(Statuses(part));
    assert part[i] in whole;
    var k :| 0 <= k < |whole| && whole[k] == part[i];
    assert Statuses(whole)[k] == Statuses(part)[i];
  }

  lemma PartStartsNoEarlier(part: seq<Row>, whole: seq<Row>, e: Option<int>, l: Option<int>, e': Option<int>, l': Option<int>)
    requires forall i :: 0 <= i < |part| ==> part[i] in whole
    requires IsEarliest(part, e) && IsLatest(part, l) && IsEarliest(whole, e') && IsLatest(whole, l')
    ensures SpanSeconds(e, l) <= SpanSeconds(e', l')
    ensures e.Some? ==> e'.Some? && e'.value <= e.value
  {
    if e.Some? {
      var i :| 0 <= i < |part| && part[i].created == e;
      var k :| 0 <= k < |whole| && whole[k] == part[i];
      assert whole[k].created == e;
    }
    if l.Some? {
      var i :| 0 <= i < |part| && part[i].updated == l;
      var k :| 0 <= k < |whole| && whole[k] == part[i];
      assert whole[k].updated == l;
    }
  }

  // ---- grouping ---------------------------------------------------------------------------------------

  function OfRun(rows: seq<Row>, run: RunId): seq<Row> {
    if rows == [] then []
    else
      var last := rows[|rows| - 1];
      OfRun(rows[..|rows| - 1], run) + if RunOf(last.key) == run then [last] else []
  }

  function Of(run: RunId): Row -> bool {
    (r: Row) => (r.key.0, r.key.1) == run
  }

  lemma {:induction false} OfRunIsFilter(rows: seq<Row>, run: RunId)
    ensures IsFilter(rows, Of(run), OfRun(rows, run))
  {
    if rows == [] {
      FilterOfNone(Of(run));
    } else {
      var front, last := rows[..|rows| - 1], rows[|rows| - 1];
      OfRunIsFilter(front, run);
      FilterSnoc(front, last, Of(run), OfRun(front, run));
      assert front + [last] == rows;
    }
  }

  lemma {:induction false} OfRunMember(rows: seq<Row>, run: RunId, x: Row)
    ensures x in OfRun(rows, run) <==> x in rows && RunOf(x.key) == run
  {
    if rows != [] {
      OfRunMember(rows[..|rows| - 1], run, x);
      assert rows == rows[..|rows| - 1] + [rows[|rows| - 1]];
    }
  }

  lemma {:induction false} OfRunDistinct(rows: seq<Row>, run: RunId)
    requires DistinctRows(rows)
    ensures DistinctRows(OfRun(rows, run))
  {
    if rows != [] {
      var front, last := rows[..|rows| - 1], rows[|rows| - 1];
      OfRunDistinct(front, run);
      forall i | 0 <= i < |OfRun(front, run)| ensures OfRun(front, run)[i].key != last.key {
        OfRunMember(front, run, OfRun(front, run)[i]);
        var k :| 0 <= k < |front| && front[k] == OfRun(front, run)[i];
        assert rows[k].key != rows[|rows| - 1].key;
      }
    }
  }

  lemma {:induction false} NoRowOfRun(rows: seq<Row>, run: RunId)
    ensures OfRun(rows, run) == [] <==> forall i :: 0 <= i < |rows| ==> RunOf(rows[i].key) != run
  {
    if rows != [] {
      NoRowOfRun(rows[..|rows| - 1], run);
      assert forall i :: 0 <= i < |rows| - 1 ==> rows[..|rows| - 1][i] == rows[i];
    }
  }

  /** Partition the rows into runs: each bucket is exactly that run's rows, in the order they came. */
  method GroupRuns(rows: seq<Row>) returns (byRun: map<RunId, seq<Row>>)
    ensures forall run :: run in byRun <==> exists i :: 0 <= i < |rows| && RunOf(rows[i].key) == run
    ensures forall run :: run in byRun ==> IsFilter(rows, Of(run), byRun[run])
    ensures forall run :: run in byRun ==> byRun[run] == OfRun(rows, run)
  {
    byRun := map[];
    for i := 0 to |rows|
      invariant forall run :: run in byRun <==> OfRun(rows[..i], run) != []
      invariant forall run :: run in byRun ==> byRun[run] == OfRun(rows[..i], run)
    {
      var key := RunOf(rows[i].key);
      ghost var next := rows[..i + 1];
      assert next[..|next| - 1] == rows[..i] && next[i] == rows[i];
      byRun := byRun[key := if key in byRun then byRun[key] + [rows[i]] else [rows[i]]];
    }
    assert rows[..|rows|] == rows;
    forall run ensures run in byRun <==> exists i :: 0 <= i < |rows| && RunOf(rows[i].key) == run {
      NoRowOfRun(rows, run);
    }
    forall run | run in byRun ensures IsFilter(rows, Of(run), byRun[run]) {
      OfRunIsFilter(rows, run);
    }
  }

  // ---- an exact window groups whole runs --------------------------------------------------------------

  /** First occurrence wins, as the console drops a row loaded on both sides of the seam. */
  ghost function Dedup(rows: seq<Row>): seq<Row> {
    if rows == [] then []
    else
      var front, last := Dedup(rows[..|rows| - 1]), rows[|rows| - 1];
      if HasKey(front, last.key) then front else front + [last]
  }

  ghost predicate HasKey(rows: seq<Row>, key: Key) {
    exists j :: 0 <= j < |rows| && rows[j].key == key
  }

  lemma HasKeyAppend(front: seq<Row>, last: Row, key: Key)
    ensures HasKey(front + [last], key) <==> HasKey(front, key) || last.key == key
  {
    var rows := front + [last];
    if last.key == key {
      assert rows[|front|].key == key;
    }
    if HasKey(front, key) {
      var j :| 0 <= j < |front| && front[j].key == key;
      assert rows[j].key == key;
    }
  }

  /** Dedup drops no key, repeats none, and invents no row. */
  lemma {:induction false} DedupKeys(rows: seq<Row>)
    ensures DistinctRows(Dedup(rows))
    ensures forall key :: HasKey(Dedup(rows), key) <==> HasKey(rows, key)
    ensures forall x :: x in Dedup(rows) ==> x in rows
  {
    if rows != [] {
      var front, last := rows[..|rows| - 1], rows[|rows| - 1];
      DedupKeys(front);
      assert rows == front + [last];
      forall key ensures HasKey(Dedup(rows), key) <==> HasKey(rows, key) {
        HasKeyAppend(front, last, key);
        HasKeyAppend(Dedup(front), last, key);
      }
    }
  }

  function Keys(rows: seq<Row>): (keys: seq<Key>)
    ensures |keys| == |rows| && forall i :: 0 <= i < |rows| ==> keys[i] == rows[i].key
  {
    seq(|rows|, i requires 0 <= i < |rows| => rows[i].key)
  }

  /**
   * In every run of the window, when the console calls it exact, a run's group holds every visible
   * job the index had for that run at the latest head poll, each once, and no job of another run.
   */
  lemma ExactGroupIsWholeRun(keep: Key -> bool, ws: seq<World>, es: seq<Event>, n: nat, rows: seq<Row>, run: RunId)
    requires IsRun(keep, ws, es) && AllHarmless(keep, ws, es) && n < |ws|
    requires ws[n].view.Home? && !ws[n].client.headView.Other? && ClaimsExact(ws[n])
    requires Keys(rows) == ws[n].client.head + ws[n].client.older
    ensures var jobs := OfRun(Dedup(rows), run);
            && DistinctRows(jobs)
            && (forall q :: 0 <= q < ws[n].snapshot <= |ws[n].index| && keep(ws[n].index[q]) && RunOf(ws[n].index[q]) == run ==>
                  ws[n].index[q] in Keys(jobs))
            && forall k :: k in Keys(jobs) ==> k in ws[n].index && keep(k) && RunOf(k) == run
  {
    var w, jobs := ws[n], OfRun(Dedup(rows), run);
    ExactIsNeverWrong(keep, ws, es, n);
    DedupKeys(rows);
    OfRunDistinct(Dedup(rows), run);
    forall q | 0 <= q < w.snapshot <= |w.index| && keep(w.index[q]) && RunOf(w.index[q]) == run
      ensures w.index[q] in Keys(jobs)
    {
      LoadedKeyIsGrouped(rows, w.index[q]);
    }
    forall k | k in Keys(jobs) ensures k in w.index && keep(k) && RunOf(k) == run {
      GroupedKeyIsLoaded(rows, run, k);
    }
  }

  lemma LoadedKeyIsGrouped(rows: seq<Row>, k: Key)
    requires k in Keys(rows)
    ensures k in Keys(OfRun(Dedup(rows), RunOf(k)))
  {
    DedupKeys(rows);
    var jobs := OfRun(Dedup(rows), RunOf(k));
    assert HasKey(rows, k) && HasKey(Dedup(rows), k);
    var j :| 0 <= j < |Dedup(rows)| && Dedup(rows)[j].key == k;
    OfRunMember(Dedup(rows), RunOf(k), Dedup(rows)[j]);
    var p :| 0 <= p < |jobs| && jobs[p] == Dedup(rows)[j];
    assert Keys(jobs)[p] == k;
  }

  lemma GroupedKeyIsLoaded(rows: seq<Row>, run: RunId, k: Key)
    requires k in Keys(OfRun(Dedup(rows), run))
    ensures k in Keys(rows) && RunOf(k) == run
  {
    DedupKeys(rows);
    var jobs := OfRun(Dedup(rows), run);
    var p :| 0 <= p < |jobs| && jobs[p].key == k;
    OfRunMember(Dedup(rows), run, jobs[p]);
    var i :| 0 <= i < |rows| && rows[i] == jobs[p];
    assert Keys(rows)[i] == k;
  }
}
