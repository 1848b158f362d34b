/**
 * Attribution: the scanner returns, for each job, exactly the first `runs-on:` line that stands in
 * that job's own body column, and no line is ever attributed to two jobs.
 */
module ScannerLaws {
  import opened Text
  import opened Scanner

  // ---- ownership, stated without the scanner ------------------------------------------------------

  predicate IsJobsLine(c: LineClass) {
    c.Key? && c.name == "jobs" && c.indent == 0
  }

  /** A top-level key other than `jobs` closes the block. */
  predicate EndsBlock(c: LineClass) {
    c.Key? && c.indent == 0 && c.name != "jobs"
  }

  /** A line that ends the current job: any key at the job-id column, or unknown structure at or left of it. */
  predicate Resets(c: LineClass, d: nat) {
    (c.Key? && c.indent == d) || (c.Other? && c.indent <= d)
  }

  /** A job id with nothing after its colon. */
  predicate IsIdLine(c: LineClass, d: nat) {
    c.Key? && c.indent == d && c.bodyless && c.name != ""
  }

  /** Lines `(j, e)` are the body of the first `jobs:` block. */
  ghost predicate IsBlock(cls: seq<LineClass>, j: nat, e: nat) {
    && j < e <= |cls|
    && IsJobsLine(cls[j]) && (forall i :: 0 <= i < j ==> !IsJobsLine(cls[i]))
    && (forall i :: j < i < e ==> !EndsBlock(cls[i]))
    && (e < |cls| ==> EndsBlock(cls[e]))
  }

  /** `d` is the column of the block's first indented key, which stands before line `n`. */
  ghost predicate IsJobColumn(cls: seq<LineClass>, j: nat, n: nat, d: nat) {
    exists m :: j < m < n <= |cls| && FirstIndented(cls, j, m, d)
  }

  ghost predicate FirstIndented(cls: seq<LineClass>, j: nat, m: nat, d: nat)
    requires j < m < |cls|
  {
    && cls[m].Key? && cls[m].indent == d > 0
    && forall i :: j < i < m && cls[i].Key? ==> cls[i].indent == 0
  }

  /** Line `k` names the job that is open just before line `n`. */
  ghost predicate OpenJob(cls: seq<LineClass>, j: nat, d: nat, n: nat, k: nat)
    requires n <= |cls|
  {
    && j < k < n && IsIdLine(cls[k], d)
    && forall i :: k < i < n ==> !Resets(cls[i], d)
  }

  /** Line `b` is the first key after `k`. */
  ghost predicate FirstKeyAfter(cls: seq<LineClass>, k: nat, b: nat, n: nat)
    requires n <= |cls|
  {
    && k < b < n && cls[b].Key?
    && forall i :: k < i < b ==> !cls[i].Key?
  }

  /** Line `l` is a `runs-on:` line in the body column of the job named on line `k`. */
  ghost predicate Owns(cls: seq<LineClass>, j: nat, d: nat, k: nat, b: nat, l: nat)
    requires l < |cls|
  {
    && OpenJob(cls, j, d, l + 1, k) && FirstKeyAfter(cls, k, b, l + 1)
    && cls[l].Key? && cls[l].indent == cls[b].indent && cls[l].runsOn
  }

  ghost predicate OwnsFor(cls: seq<LineClass>, j: nat, d: nat, job: string, l: nat)
    requires l < |cls|
  {
    exists k: nat, b: nat :: Owns(cls, j, d, k, b, l) && cls[k].name == job
  }

  // ---- the invariant --------------------------------------------------------------------------------

  ghost predicate JobInv(cls: seq<LineClass>, j: nat, n: nat, s: Scan)
    requires n <= |cls|
  {
    match (s.jobColumn, s.current)
    case (None, cur) => cur.None? && s.body.None? && forall i :: j < i < n && cls[i].Key? ==> cls[i].indent == 0
    case (Some(d), None) =>
      IsJobColumn(cls, j, n, d) && s.body.None? && forall k: nat :: !OpenJob(cls, j, d, n, k)
    case (Some(d), Some((name, k))) =>
      && IsJobColumn(cls, j, n, d)
      && OpenJob(cls, j, d, n, k) && cls[k].name == name
      && match s.body
         case None => forall i :: k < i < n ==> !cls[i].Key?
         case Some((column, b)) => FirstKeyAfter(cls, k, b, n) && cls[b].indent == column
  }

  /** `found` holds, for each job that owns a line before `n`, the first such line. */
  ghost predicate FoundFor(cls: seq<LineClass>, j: nat, d: nat, n: nat, found: map<string, nat>)
    requires n <= |cls|
  {
    && (forall job :: job in found ==> found[job] < n && OwnsFor(cls, j, d, job, found[job]))
    && (forall job, l :: 0 <= l < n && OwnsFor(cls, j, d, job, l) ==> job in found && found[job] <= l)
  }

  ghost predicate FoundInv(cls: seq<LineClass>, j: nat, n: nat, s: Scan)
    requires n <= |cls|
  {
    match s.jobColumn
    case None => s.found == map[]
    case Some(d) => FoundFor(cls, j, d, n, s.found)
  }

  lemma {:induction false} BeforeBlock(cls: seq<LineClass>, j: nat, n: nat)
    requires j < |cls| && n <= j && forall i :: 0 <= i < j ==> !IsJobsLine(cls[i])
    ensures ScanTo(cls, n) == START
  {
    if n > 0 {
      BeforeBlock(cls, j, n - 1);
    }
  }

  /** A job that is open is the only one that is. */
  lemma OpenJobUnique(cls: seq<LineClass>, j: nat, d: nat, n: nat, k1: nat, k2: nat)
    requires n <= |cls| && OpenJob(cls, j, d, n, k1) && OpenJob(cls, j, d, n, k2)
    ensures k1 == k2
  {
  }

  lemma OpenJobBefore(cls: seq<LineClass>, j: nat, d: nat, n: nat, n': nat, k: nat)
    requires n < n' <= |cls| && OpenJob(cls, j, d, n', k) && k < n
    ensures OpenJob(cls, j, d, n, k)
  {
  }

  lemma JobStep(cls: seq<LineClass>, j: nat, e: nat, n: nat, n': nat, s: Scan)
    requires IsBlock(cls, j, e) && j < n < e && n' == n + 1
    requires s.jobs.Some? && !s.stopped && JobInv(cls, j, n, s)
    ensures JobInv(cls, j, n', Step(s, cls[n], n))
  {
    var c, s' := cls[n], Step(s, cls[n], n);
    assert !EndsBlock(c);
    if s.jobColumn.None? && c.Key? && c.indent > 0 {
      assert FirstIndented(cls, j, n, c.indent);
      assert IsJobColumn(cls, j, n', c.indent);
      assert forall k :: j < k < n ==> !IsIdLine(cls[k], c.indent);
    } else if s.jobColumn.Some? {
      var d := s.jobColumn.value;
      var m :| j < m < n <= |cls| && FirstIndented(cls, j, m, d);
      assert IsJobColumn(cls, j, n', d);
      if s'.current.None? {
        forall k: nat | k < n ensures !OpenJob(cls, j, d, n', k) {
          if OpenJob(cls, j, d, n', k) {
            OpenJobBefore(cls, j, d, n, n', k);
          }
        }
      }
    }
  }

  /** The job, if any, that line `c` is credited to in state `s`. */
  function Credited(s: Scan, c: LineClass): Option<string> {
    if s.jobColumn.Some? && s.current.Some? && c.Key? && c.indent != s.jobColumn.value && c.runsOn &&
       (s.body.None? || s.body.value.0 == c.indent)
    then Some(s.current.value.0) else None
  }

  lemma FoundAfter(cls: seq<LineClass>, j: nat, d: nat, n: nat, found: map<string, nat>, hit: Option<string>)
    requires n < |cls| && forall job :: OwnsFor(cls, j, d, job, n) <==> hit == Some(job)
    requires FoundFor(cls, j, d, n, found)
    ensures FoundFor(cls, j, d, n + 1, if hit.Some? && hit.value !in found then found[hit.value := n] else found)
  {
  }

  lemma FoundStep(cls: seq<LineClass>, j: nat, e: nat, n: nat, s: Scan)
    requires IsBlock(cls, j, e) && j < n < e
    requires s.jobs.Some? && !s.stopped && JobInv(cls, j, n, s) && FoundInv(cls, j, n, s)
    ensures FoundInv(cls, j, n + 1, Step(s, cls[n], n))
  {
    var c := cls[n];
    assert !EndsBlock(c);
    if s.jobColumn.Some? {
      OwnsAtStep(cls, j, e, n, s);
      FoundAfter(cls, j, s.jobColumn.value, n, s.found, Credited(s, c));
    } else if c.Key? && c.indent > 0 {
      assert forall k :: j < k < n ==> !IsIdLine(cls[k], c.indent);
      NobodyOwnsYet(cls, j, c.indent, n + 1);
    }
  }

  lemma NobodyOwnsYet(cls: seq<LineClass>, j: nat, d: nat, n: nat)
    requires 0 < n <= |cls| && forall k :: j < k < n - 1 ==> !IsIdLine(cls[k], d)
    ensures forall job, l :: 0 <= l < n ==> !OwnsFor(cls, j, d, job, l)
  {
    forall job, l | 0 <= l < n ensures !OwnsFor(cls, j, d, job, l) {
      forall k: nat, b: nat ensures !Owns(cls, j, d, k, b, l) {
      }
    }
  }

  /** Line `n` is owned by a job exactly when that job is open and `n` is a selector in its body column. */
  lemma OwnsAtStep(cls: seq<LineClass>, j: nat, e: nat, n: nat, s: Scan)
    requires IsBlock(cls, j, e) && j < n < e && s.jobColumn.Some? && s.jobs.Some? && !s.stopped
    requires JobInv(cls, j, n, s)
    ensures var d := s.jobColumn.value;
            forall job :: OwnsFor(cls, j, d, job, n) <==> Credited(s, cls[n]) == Some(job)
  {
    var d := s.jobColumn.value;
    forall job ensures OwnsFor(cls, j, d, job, n) <==> Credited(s, cls[n]) == Some(job) {
      if OwnsFor(cls, j, d, job, n) {
        var k: nat, b: nat :| Owns(cls, j, d, k, b, n) && cls[k].name == job;
        assert k < n && OpenJob(cls, j, d, n, k);
        OpenJobUnique(cls, j, d, n, k, s.current.value.1);
      }
      if Credited(s, cls[n]) == Some(job) {
        var k := s.current.value.1;
        var b := if s.body.None? then n else s.body.value.1;
        assert Owns(cls, j, d, k, b, n);
      }
    }
  }

  lemma {:induction false} ScanInv(cls: seq<LineClass>, j: nat, e: nat, n: nat)
    requires IsBlock(cls, j, e) && j < n <= e
    ensures var s := ScanTo(cls, n);
            s.jobs == Some(j) && !s.stopped && JobInv(cls, j, n, s) && FoundInv(cls, j, n, s)
    decreases n
  {
    if n == j + 1 {
      BeforeBlock(cls, j, j);
    } else {
      ScanInv(cls, j, e, n - 1);
      var s := ScanTo(cls, n - 1);
      JobStep(cls, j, e, n - 1, n, s);
      FoundStep(cls, j, e, n - 1, s);
      assert !EndsBlock(cls[n - 1]);
    }
  }

  lemma FoundAtEnd(cls: seq<LineClass>, j: nat, e: nat)
    requires IsBlock(cls, j, e)
    ensures ScanTo(cls, |cls|).found == ScanTo(cls, e).found
  {
    ScanInv(cls, j, e, e);
    if e < |cls| {
      assert ScanTo(cls, e + 1).stopped;
      StoppedStays(cls, e + 1, |cls|);
    }
  }

  // ---- the theorems -----------------------------------------------------------------------------------

  /**
   * The scanner's answer, exactly: a job is found iff some line of the block is its own, and the
   * line returned is the first of them.
   */
  lemma FoundIffOwned(cls: seq<LineClass>, j: nat, e: nat, d: nat, job: string, l: nat)
    requires IsBlock(cls, j, e) && IsJobColumn(cls, j, e, d)
    ensures var found := ScanTo(cls, |cls|).found;
            (job in found && found[job] == l) <==>
              (l < e && OwnsFor(cls, j, d, job, l) && forall i :: 0 <= i < l ==> !OwnsFor(cls, j, d, job, i))
  {
    FoundAtEnd(cls, j, e);
    ScanInv(cls, j, e, e);
    ColumnUnique(cls, j, e, d);
    var found := ScanTo(cls, |cls|).found;
    if l < e && OwnsFor(cls, j, d, job, l) && forall i :: 0 <= i < l ==> !OwnsFor(cls, j, d, job, i) {
      assert job in found && found[job] <= l;
    }
  }

  lemma ColumnUnique(cls: seq<LineClass>, j: nat, n: nat, d: nat)
    requires n <= |cls| && IsJobColumn(cls, j, n, d) && JobInv(cls, j, n, ScanTo(cls, n))
    ensures ScanTo(cls, n).jobColumn == Some(d)
  {
    var m :| j < m < n <= |cls| && FirstIndented(cls, j, m, d);
    var s := ScanTo(cls, n);
    if s.jobColumn.Some? {
      var m' :| j < m' < n <= |cls| && FirstIndented(cls, j, m', s.jobColumn.value);
      assert m == m';
    }
  }

  /** No line belongs to two jobs. */
  lemma NoLineForTwoJobs(cls: seq<LineClass>, j: nat, d: nat, job1: string, job2: string, l: nat)
    requires l < |cls| && OwnsFor(cls, j, d, job1, l) && OwnsFor(cls, j, d, job2, l)
    ensures job1 == job2
  {
    var k1: nat, b1: nat :| Owns(cls, j, d, k1, b1, l) && cls[k1].name == job1;
    var k2: nat, b2: nat :| Owns(cls, j, d, k2, b2, l) && cls[k2].name == job2;
    OpenJobUnique(cls, j, d, l + 1, k1, k2);
  }

  /** A key left of the job-id column, inside the block. */
  predicate Shallow(c: LineClass, d: nat) {
    c.Key? && c.indent < d
  }

  predicate AtOrLeft(c: LineClass, d: nat) {
    !c.Blank? && c.indent <= d
  }

  /** Line `k` is the nearest earlier structural line at or left of column `d`. */
  ghost predicate NearestAtOrLeft(cls: seq<LineClass>, d: nat, k: nat, l: nat) {
    && k < l <= |cls| && AtOrLeft(cls[k], d)
    && forall i :: k < i < l ==> !AtOrLeft(cls[i], d)
  }

  /**
   * The line's nearest structural line at or left of the job-id column is its own job id exactly
   * when no key left of that column stands between them; without one the line is also indented
   * deeper than its job id.
   */
  lemma AttributionIsNearestIff(cls: seq<LineClass>, j: nat, d: nat, k: nat, b: nat, l: nat)
    requires l < |cls| && Owns(cls, j, d, k, b, l)
    ensures NearestAtOrLeft(cls, d, k, l) <==> forall i :: k < i < l ==> !Shallow(cls[i], d)
    ensures NearestAtOrLeft(cls, d, k, l) && !Shallow(cls[l], d) ==> cls[l].indent > d
  {
    assert forall i :: k < i < l + 1 ==> !Resets(cls[i], d);
  }

  /**
   * Outside that hypothesis the scanner does mis-attribute: a key between the `jobs:` column and the
   * job-id column is taken for the job's first body key, so a `runs-on:` beside it is returned.
   */
  lemma ShallowKeyMisattributes(cls: seq<LineClass>, name: string, odd: string, d: nat, e: nat)
    requires name != "" && |cls| == 4 && 0 < e < d
    requires cls[0] == Key(0, "jobs", true, false) && cls[1] == Key(d, name, true, false)
    requires cls[2] == Key(e, odd, true, false) && cls[3].Key? && cls[3].indent == e && cls[3].runsOn
    ensures var found := ScanTo(cls, 4).found;
            name in found && found[name] == 3 && !NearestAtOrLeft(cls, d, 1, 3)
  {
    assert ScanTo(cls, 1) == START.(jobs := Some(0));
    assert ScanTo(cls, 2) == START.(jobs := Some(0), jobColumn := Some(d), current := Some((name, 1)));
    assert ScanTo(cls, 3) == ScanTo(cls, 2).(body := Some((e, 2)));
    assert AtOrLeft(cls[2], d);
  }

  // ---- editing a selector changes nothing the scan depends on -------------------------------------------

  /** The same key at the same column, still a selector; only what follows the colon differs. */
  predicate SameSelector(a: LineClass, b: LineClass) {
    a.Key? && b.Key? && a.indent == b.indent && a.name == b.name && a.runsOn == b.runsOn
  }

  /** `cls'` differs from `cls` at most in the values of lines the scanner returned. */
  ghost predicate EditsSelectors(cls: seq<LineClass>, cls': seq<LineClass>) {
    && |cls| == |cls'|
    && var found := ScanTo(cls, |cls|).found;
       forall i :: 0 <= i < |cls| ==>
         cls[i] == cls'[i] || (SameSelector(cls[i], cls'[i]) && exists job :: job in found && found[job] == i)
  }

  lemma {:induction false} SameScan(cls: seq<LineClass>, cls': seq<LineClass>, n: nat)
    requires EditsSelectors(cls, cls') && n <= |cls|
    ensures ScanTo(cls', n) == ScanTo(cls, n)
  {
    if n > 0 {
      SameScan(cls, cls', n - 1);
      if cls[n - 1] != cls'[n - 1] {
        var found := ScanTo(cls, |cls|).found;
        var job :| job in found && found[job] == n - 1;
        FoundLineIsNotAnId(cls, job);
      }
    }
  }

  lemma FoundIsOwned(cls: seq<LineClass>, job: string)
    returns (j: nat, e: nat, d: nat, k: nat, b: nat)
    requires job in ScanTo(cls, |cls|).found
    ensures var l := ScanTo(cls, |cls|).found[job];
            && IsBlock(cls, j, e) && l < e && IsJobColumn(cls, j, e, d)
            && Owns(cls, j, d, k, b, l) && cls[k].name == job
  {
    j, e := BlockOf(cls, job);
    ScanInv(cls, j, e, e);
    FoundAtEnd(cls, j, e);
    d := ScanTo(cls, e).jobColumn.value;
    var l := ScanTo(cls, |cls|).found[job];
    k, b :| Owns(cls, j, d, k, b, l) && cls[k].name == job;
  }

  /** A returned line is never at the job-id column, and the column is known before it. */
  lemma FoundLineIsNotAnId(cls: seq<LineClass>, job: string)
    requires job in ScanTo(cls, |cls|).found
    ensures var l := ScanTo(cls, |cls|).found[job];
            && l < |cls| && cls[l].Key? && cls[l].runsOn
            && ScanTo(cls, l).jobColumn.Some? && ScanTo(cls, l).jobColumn.value != cls[l].indent
  {
    var j, e, d, k, b := FoundIsOwned(cls, job);
    var l := ScanTo(cls, |cls|).found[job];
    ColumnBefore(cls, j, e, d, k, l);
    assert Resets(cls[l], d) <==> cls[l].indent == d;
  }

  lemma ColumnBefore(cls: seq<LineClass>, j: nat, e: nat, d: nat, k: nat, l: nat)
    requires IsBlock(cls, j, e) && IsJobColumn(cls, j, e, d)
    requires j < k < l < e && IsIdLine(cls[k], d)
    ensures ScanTo(cls, l).jobColumn == Some(d)
  {
    var m :| j < m < e <= |cls| && FirstIndented(cls, j, m, d);
    assert m <= k;
    assert IsJobColumn(cls, j, l, d);
    ScanInv(cls, j, e, l);
    ColumnUnique(cls, j, l, d);
  }

  lemma BlockOf(cls: seq<LineClass>, job: string) returns (j: nat, e: nat)
    requires job in ScanTo(cls, |cls|).found
    ensures IsBlock(cls, j, e)
  {
    j := 0;
    while j < |cls| && !IsJobsLine(cls[j])
      invariant j <= |cls| && forall i :: 0 <= i < j ==> !IsJobsLine(cls[i])
    {
      j := j + 1;
    }
    if j == |cls| {
      NoBlock(cls, |cls|);
    }
    e := j + 1;
    while e < |cls| && !EndsBlock(cls[e])
      invariant j < e <= |cls| && forall i :: j < i < e ==> !EndsBlock(cls[i])
    {
      e := e + 1;
    }
  }

  lemma {:induction false} NoBlock(cls: seq<LineClass>, n: nat)
    requires n <= |cls| && forall i :: 0 <= i < n ==> !IsJobsLine(cls[i])
    ensures ScanTo(cls, n) == START
  {
    if n > 0 {
      NoBlock(cls, n - 1);
    }
  }
}
