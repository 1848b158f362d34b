/**
 * The report fan-out: up to eight cooperative workers share a queue of repositories, one list of
 * rows and one `complete` flag. A worker runs undisturbed between two page queries.
 *
 * A repository's index is taken as it stood at that repository's first query, newest row first:
 * rows arriving later are newer than everything the remaining pages return.
 */
module FanOut {
  import opened Text
  import opened Filtering

  const MAX_PAGES_PER_REPO: nat := 20
  const PAGE_SIZE: nat := 200
  const MAX_TOTAL_ROWS: nat := 20000
  const CONCURRENCY: nat := 8

  /** `at` is the creation time in milliseconds, `None` when it does not parse. */
  datatype Row = Row(repo: nat, at: Option<int>, id: nat)

  datatype Window = Window(from: int, to: int)

  predicate Inside(r: Row, w: Window) {
    r.at.Some? && w.from <= r.at.value < w.to
  }

  predicate Older(r: Row, w: Window) {
    r.at.Some? && r.at.value < w.from
  }

  function InWindow(rows: seq<Row>, w: Window): (kept: seq<Row>)
    ensures |kept| <= |rows|
  {
    if rows == [] then []
    else InWindow(rows[..|rows| - 1], w) + if Inside(rows[|rows| - 1], w) then [rows[|rows| - 1]] else []
  }

  function OfRepo(rows: seq<Row>, repo: nat): seq<Row> {
    if rows == [] then []
    else OfRepo(rows[..|rows| - 1], repo) + if rows[|rows| - 1].repo == repo then [rows[|rows| - 1]] else []
  }

  /** A row whose date parses and lies in the window, its first instant included and its last not. */
  function Dated(w: Window): Row -> bool {
    (r: Row) => r.at.Some? && w.from <= r.at.value && r.at.value < w.to
  }

  function From(repo: nat): Row -> bool {
    (r: Row) => r.repo == repo
  }

  lemma {:induction false} InWindowIsFilter(rows: seq<Row>, w: Window)
    ensures IsFilter(rows, Dated(w), InWindow(rows, w))
  {
    if rows == [] {
      FilterOfNone(Dated(w));
    } else {
      var front, last := rows[..|rows| - 1], rows[|rows| - 1];
      InWindowIsFilter(front, w);
      FilterSnoc(front, last, Dated(w), InWindow(front, w));
      assert front + [last] == rows;
    }
  }

  lemma {:induction false} OfRepoIsFilter(rows: seq<Row>, repo: nat)
    ensures IsFilter(rows, From(repo), OfRepo(rows, repo))
  {
    if rows == [] {
      FilterOfNone(From(repo));
    } else {
      var front, last := rows[..|rows| - 1], rows[|rows| - 1];
      OfRepoIsFilter(front, repo);
      FilterSnoc(front, last, From(repo), OfRepo(front, repo));
      assert front + [last] == rows;
    }
  }

  // ---- scope ------------------------------------------------------------------------------------------

  ghost predicate Distinct(ids: seq<nat>) {
    forall i, j :: 0 <= i < j < |ids| ==> ids[i] != ids[j]
  }

  /**
   * The repositories a report may read: those some installation of the session grants, narrowed to
   * the requested ones when any are named, each once. A request can never widen the scope.
   */
  method ResolveVisibleRepos(perInstall: seq<seq<nat>>, requested: seq<nat>) returns (repos: seq<nat>)
    ensures Distinct(repos)
    ensures forall r :: r in repos <==>
              (exists i :: 0 <= i < |perInstall| && r in perInstall[i]) && (requested == [] || r in requested)
  {
    repos := [];
    var seen: set<nat> := {};
    for i := 0 to |perInstall|
      invariant Distinct(repos) && forall r :: r in seen <==> r in repos
      invariant forall r :: r in repos <==> (exists k :: 0 <= k < i && r in perInstall[k]) && (requested == [] || r in requested)
    {
      ghost var before := repos;
      var grant := perInstall[i];
      for j := 0 to |grant|
        invariant Distinct(repos) && forall r :: r in seen <==> r in repos
        invariant forall r :: r in repos <==> r in before || (r in grant[..j] && (requested == [] || r in requested))
      {
        assert grant[..j + 1] == grant[..j] + [grant[j]];
        if (requested == [] || grant[j] in requested) && grant[j] !in seen {
          repos := repos + [grant[j]];
          seen := seen + {grant[j]};
        }
      }
      assert grant[..|grant|] == grant;
    }
  }

  // ---- one page ---------------------------------------------------------------------------------------

  /** Keep the page's in-window rows, and notice a row older than the window. */
  method ScanPage(rows: seq<Row>, w: Window) returns (kept: seq<Row>, reachedOlder: bool)
    ensures IsFilter(rows, Dated(w), kept) && kept == InWindow(rows, w)
    ensures reachedOlder <==> exists i :: 0 <= i < |rows| && rows[i].at.Some? && rows[i].at.value < w.from
  {
    kept, reachedOlder := [], false;
    for i := 0 to |rows|
      invariant kept == InWindow(rows[..i], w)
      invariant reachedOlder <==> exists k :: 0 <= k < i && Older(rows[k], w)
    {
      ghost var next := rows[..i + 1];
      assert next[..|next| - 1] == rows[..i] && next[i] == rows[i];
      var r := rows[i];
      if r.at.None? {
        continue;
      }
      if r.at.value < w.from {
        reachedOlder := true;
        continue;
      }
      if r.at.value >= w.to {
        continue;
      }
      kept := kept + [r];
    }
    assert rows[..|rows|] == rows;
    InWindowIsFilter(rows, w);
    assert forall i :: 0 <= i < |rows| ==> (Older(rows[i], w) <==> rows[i].at.Some? && rows[i].at.value < w.from);
  }

  // ---- the workers ------------------------------------------------------------------------------------

  datatype Worker = Ready | Awaiting(repo: nat, page: nat, off: nat) | Done

  /** `walked` (how much of each repository's index has been scanned) is kept for the proof only. */
  datatype State = State(
    queue: seq<nat>, runs: seq<Row>, complete: bool, budgetSpent: bool, read: set<nat>, workers: seq<Worker>, walked: map<nat, nat>)

  datatype Job = Job(repos: seq<nat>, index: nat -> seq<Row>, window: Window)

  datatype Event = Take(worker: nat) | Land(worker: nat, off: nat, exhausted: bool)

  /** Rows carry their repository, and parseable dates never increase down the index. */
  ghost predicate NewestFirst(rows: seq<Row>, repo: nat) {
    && (forall i :: 0 <= i < |rows| ==> rows[i].repo == repo)
    && forall i, j :: 0 <= i < j < |rows| && rows[i].at.Some? && rows[j].at.Some? ==> rows[i].at.value >= rows[j].at.value
  }

  ghost predicate WellFormed(job: Job) {
    Distinct(job.repos) && forall r :: r in job.repos ==> NewestFirst(job.index(r), r)
  }

  /** One worker a repository, at most eight and at least one. */
  function WorkerCount(repos: seq<nat>): (n: nat)
    ensures 1 <= n <= 8 && (|repos| >= 8 ==> n == 8) && (1 <= |repos| <= 8 ==> n == |repos|) && (repos == [] ==> n == 1)
  {
    var wanted := if |repos| > 1 then |repos| else 1;
    if wanted < CONCURRENCY then wanted else CONCURRENCY
  }

  ghost predicate Init(job: Job, s: State) {
    && s.queue == job.repos && s.runs == [] && s.complete && !s.budgetSpent && s.read == {}
    && |s.workers| == WorkerCount(job.repos) && (forall i :: 0 <= i < |s.workers| ==> s.workers[i].Ready?)
    && s.walked == map r | r in job.repos :: 0
  }

  /** A worker back at the top of its loop takes the next repository, or stops. */
  ghost predicate TakeStep(s: State, i: nat, s': State) {
    && i < |s.workers| && s.workers[i].Ready?
    && s' == if s.queue == [] then s.(workers := s.workers[i := Done])
             else if s.budgetSpent then s.(queue := s.queue[1..], workers := s.workers[i := Done])
             else s.(queue := s.queue[1..], read := s.read + {s.queue[0]}, workers := s.workers[i := Awaiting(s.queue[0], 0, 0)])
  }

  /** A page lands: at most PAGE_SIZE rows from where the worker stood; no further cursor only at the end. */
  ghost predicate LandStep(job: Job, s: State, i: nat, off: nat, exhausted: bool, s': State) {
    && i < |s.workers| && s.workers[i].Awaiting?
    && var a, rows := s.workers[i], job.index(s.workers[i].repo);
       && a.off <= off <= |rows| && off - a.off <= PAGE_SIZE && (exhausted ==> off == |rows|)
       && var page := rows[a.off..off];
          var runs := s.runs + InWindow(page, job.window);
          var u := s.(runs := runs, walked := s.walked[a.repo := off]);
          s' == if |runs| >= MAX_TOTAL_ROWS then u.(complete := false, budgetSpent := true, workers := s.workers[i := Done])
                else if exhausted || exists k :: 0 <= k < |page| && Older(page[k], job.window) then u.(workers := s.workers[i := Ready])
                else if a.page == MAX_PAGES_PER_REPO - 1 then u.(complete := false, workers := s.workers[i := Ready])
                else u.(workers := s.workers[i := Awaiting(a.repo, a.page + 1, off)])
  }

  ghost predicate Step(job: Job, s: State, e: Event, s': State) {
    match e
    case Take(i) => TakeStep(s, i, s')
    case Land(i, off, exhausted) => LandStep(job, s, i, off, exhausted, s')
  }

  ghost predicate IsRun(job: Job, ss: seq<State>, es: seq<Event>) {
    && |ss| == |es| + 1 && Init(job, ss[0])
    && forall i :: 0 <= i < |es| ==> Step(job, ss[i], es[i], ss[i + 1])
  }

  // ---- sequences --------------------------------------------------------------------------------------

  lemma {:induction false} OfRepoConcat(a: seq<Row>, b: seq<Row>, repo: nat)
    ensures OfRepo(a + b, repo) == OfRepo(a, repo) + OfRepo(b, repo)
    decreases |b|
  {
    if b == [] {
      assert a + b == a;
    } else {
      assert (a + b)[..|a + b| - 1] == a + b[..|b| - 1];
      OfRepoConcat(a, b[..|b| - 1], repo);
    }
  }

  lemma {:induction false} InWindowConcat(a: seq<Row>, b: seq<Row>, w: Window)
    ensures InWindow(a + b, w) == InWindow(a, w) + InWindow(b, w)
    decreases |b|
  {
    if b == [] {
      assert a + b == a;
    } else {
      assert (a + b)[..|a + b| - 1] == a + b[..|b| - 1];
      InWindowConcat(a, b[..|b| - 1], w);
    }
  }

  lemma {:induction false} KeptAreRows(rows: seq<Row>, w: Window, owner: nat)
    requires forall i :: 0 <= i < |rows| ==> rows[i].repo == owner
    ensures forall i :: 0 <= i < |InWindow(rows, w)| ==> InWindow(rows, w)[i].repo == owner
  {
    if rows != [] {
      KeptAreRows(rows[..|rows| - 1], w, owner);
    }
  }

  lemma {:induction false} AllOfOne(rows: seq<Row>, owner: nat, repo: nat)
    requires forall i :: 0 <= i < |rows| ==> rows[i].repo == owner
    ensures OfRepo(rows, repo) == if repo == owner then rows else []
  {
    if rows != [] {
      AllOfOne(rows[..|rows| - 1], owner, repo);
      assert rows == rows[..|rows| - 1] + [rows[|rows| - 1]];
    }
  }

  lemma {:induction false} NothingInside(rows: seq<Row>, w: Window)
    requires forall i :: 0 <= i < |rows| ==> !Inside(rows[i], w)
    ensures InWindow(rows, w) == []
  {
    if rows != [] {
      NothingInside(rows[..|rows| - 1], w);
    }
  }

  /** Below a row older than the window nothing is inside it. */
  lemma OlderEndsTheWindow(rows: seq<Row>, repo: nat, w: Window, k: nat, off: nat)
    requires NewestFirst(rows, repo) && k < off <= |rows| && Older(rows[k], w)
    ensures InWindow(rows[..off], w) == InWindow(rows, w)
  {
    assert rows == rows[..off] + rows[off..];
    InWindowConcat(rows[..off], rows[off..], w);
    NothingInside(rows[off..], w);
  }

  // ---- the row budget ---------------------------------------------------------------------------------

  function InFlight(ws: seq<Worker>): (n: nat)
    ensures n <= |ws|
  {
    if ws == [] then 0 else InFlight(ws[..|ws| - 1]) + if ws[|ws| - 1].Awaiting? then 1 else 0
  }

  lemma {:induction false} InFlightUpdate(ws: seq<Worker>, i: nat, w: Worker)
    requires i < |ws|
    ensures InFlight(ws[i := w]) == InFlight(ws) - (if ws[i].Awaiting? then 1 else 0) + (if w.Awaiting? then 1 else 0)
  {
    var front := ws[..|ws| - 1];
    if i == |ws| - 1 {
      assert ws[i := w][..|ws| - 1] == front;
    } else {
      assert ws[i := w][..|ws| - 1] == front[i := w];
      InFlightUpdate(front, i, w);
    }
  }

  ghost predicate BudgetInv(s: State) {
    && |s.workers| <= CONCURRENCY
    && (s.budgetSpent <==> |s.runs| >= MAX_TOTAL_ROWS) && (s.budgetSpent ==> !s.complete)
    && (s.budgetSpent ==> |s.runs| + PAGE_SIZE * InFlight(s.workers) < MAX_TOTAL_ROWS + CONCURRENCY * PAGE_SIZE)
  }

  lemma BudgetKept(job: Job, s: State, e: Event, s': State)
    requires BudgetInv(s) && Step(job, s, e, s')
    ensures BudgetInv(s')
  {
    InFlightUpdate(s.workers, e.worker, s'.workers[e.worker]);
  }

  lemma {:induction false} BudgetInRun(job: Job, ss: seq<State>, es: seq<Event>, n: nat)
    requires IsRun(job, ss, es) && n < |ss|
    ensures BudgetInv(ss[n])
  {
    if n > 0 {
      BudgetInRun(job, ss, es, n - 1);
      BudgetKept(job, ss[n - 1], es[n - 1], ss[n]);
    }
  }

  /** However the workers interleave, the rows collected stay below the budget plus one page per worker. */
  lemma RowsAreBounded(job: Job, ss: seq<State>, es: seq<Event>, n: nat)
    requires IsRun(job, ss, es) && n < |ss|
    ensures |ss[n].runs| < MAX_TOTAL_ROWS + CONCURRENCY * PAGE_SIZE
  {
    BudgetInRun(job, ss, es, n);
  }

  // ---- what has been read -----------------------------------------------------------------------------

  ghost predicate Scanned(job: Job, runs: seq<Row>, repo: nat, off: nat) {
    off <= |job.index(repo)| && OfRepo(runs, repo) == InWindow(job.index(repo)[..off], job.window)
  }

  /** Every repository is scanned down to where it has been walked, and no foreign row is present. */
  ghost predicate RowsInv(job: Job, runs: seq<Row>, walked: map<nat, nat>) {
    && (forall r :: r in walked <==> r in job.repos)
    && (forall r :: r in job.repos ==> Scanned(job, runs, r, walked[r]))
    && (forall i :: 0 <= i < |runs| ==> runs[i].repo in job.repos)
  }

  /** Each repository is in the hands of the queue or of at most one worker, which stands where it has been walked. */
  ghost predicate WorkInv(repos: seq<nat>, s: State) {
    && (forall i :: 0 <= i < |s.workers| && s.workers[i].Awaiting? ==>
          s.workers[i].repo in repos && s.workers[i].repo !in s.queue
          && s.workers[i].repo in s.walked && s.walked[s.workers[i].repo] == s.workers[i].off)
    && (forall i, j :: 0 <= i < j < |s.workers| && s.workers[i].Awaiting? && s.workers[j].Awaiting? ==>
          s.workers[i].repo != s.workers[j].repo)
    && Distinct(s.queue)
    && (forall r :: r in s.queue ==> r in repos && r in s.walked && s.walked[r] == 0)
  }

  ghost predicate ScanInv(job: Job, s: State) {
    RowsInv(job, s.runs, s.walked) && WorkInv(job.repos, s)
  }

  ghost predicate OnIt(s: State, repo: nat) {
    exists i :: 0 <= i < |s.workers| && s.workers[i].Awaiting? && s.workers[i].repo == repo
  }

  /** Nothing more of `repo` lies in the window. */
  ghost predicate Finished(job: Job, s: State, repo: nat) {
    repo in s.read && repo in s.walked && s.walked[repo] <= |job.index(repo)|
    && InWindow(job.index(repo)[..s.walked[repo]], job.window) == InWindow(job.index(repo), job.window)
  }

  /** While `complete` stands, every repository is still queued, being read, or finished. */
  ghost predicate CoverInv(job: Job, s: State) {
    s.complete ==>
      && (forall r :: r in job.repos ==> r in s.queue || OnIt(s, r) || Finished(job, s, r))
      && (forall i :: 0 <= i < |s.workers| && s.workers[i].Awaiting? ==> s.workers[i].repo in s.read)
      && ((exists i :: 0 <= i < |s.workers| && s.workers[i].Done?) ==> s.queue == [])
  }

  lemma TakeKeepsScan(job: Job, s: State, i: nat, s': State)
    requires WellFormed(job) && ScanInv(job, s) && TakeStep(s, i, s')
    ensures ScanInv(job, s')
  {
    if s.queue != [] {
      var repo := s.queue[0];
      assert s.queue == [repo] + s.queue[1..];
      assert repo in s.queue && repo !in s.queue[1..];
      assert s.runs == s'.runs && s.walked == s'.walked;
    }
  }

  /** A landed page advances its own repository and no other. */
  lemma LandScans(before: seq<Row>, rows: seq<Row>, w: Window, owner: nat, lo: nat, off: nat, repo: nat)
    requires lo <= off <= |rows| && forall i :: 0 <= i < |rows| ==> rows[i].repo == owner
    requires OfRepo(before, owner) == InWindow(rows[..lo], w)
    ensures OfRepo(before + InWindow(rows[lo..off], w), repo) ==
            if repo == owner then InWindow(rows[..off], w) else OfRepo(before, repo)
  {
    var page := rows[lo..off];
    OfRepoConcat(before, InWindow(page, w), repo);
    KeptAreRows(page, w, owner);
    AllOfOne(InWindow(page, w), owner, repo);
    assert rows[..off] == rows[..lo] + page;
    InWindowConcat(rows[..lo], page, w);
  }

  lemma LandKeepsRows(job: Job, runs: seq<Row>, walked: map<nat, nat>, repo: nat, off: nat)
    requires RowsInv(job, runs, walked) && repo in job.repos && NewestFirst(job.index(repo), repo)
    requires walked[repo] <= off <= |job.index(repo)|
    ensures RowsInv(job, runs + InWindow(job.index(repo)[walked[repo]..off], job.window), walked[repo := off])
  {
    var rows, lo := job.index(repo), walked[repo];
    assert Scanned(job, runs, repo, lo);
    forall r | r in job.repos
      ensures Scanned(job, runs + InWindow(rows[lo..off], job.window), r, walked[repo := off][r])
    {
      assert Scanned(job, runs, r, walked[r]);
      LandScans(runs, rows, job.window, repo, lo, off, r);
    }
    KeptAreRows(rows[lo..off], job.window, repo);
  }

  lemma LandKeepsWork(repos: seq<nat>, s: State, i: nat, off: nat, w: Worker, s': State)
    requires WorkInv(repos, s) && i < |s.workers| && s.workers[i].Awaiting?
    requires w.Awaiting? ==> w.repo == s.workers[i].repo && w.off == off
    requires s'.queue == s.queue && s'.walked == s.walked[s.workers[i].repo := off] && s'.workers == s.workers[i := w]
    ensures WorkInv(repos, s')
  {
  }

  lemma LandKeepsScan(job: Job, s: State, i: nat, off: nat, exhausted: bool, s': State)
    requires WellFormed(job) && ScanInv(job, s) && LandStep(job, s, i, off, exhausted, s')
    ensures ScanInv(job, s')
  {
    var a := s.workers[i];
    LandKeepsRows(job, s.runs, s.walked, a.repo, off);
    LandKeepsWork(job.repos, s, i, off, s'.workers[i], s');
  }

  lemma TakeKeepsCover(job: Job, s: State, i: nat, s': State)
    requires BudgetInv(s) && ScanInv(job, s) && CoverInv(job, s) && TakeStep(s, i, s')
    ensures CoverInv(job, s')
  {
    if s'.complete {
      forall r | r in job.repos ensures r in s'.queue || OnIt(s', r) || Finished(job, s', r) {
        if s.queue != [] && r == s.queue[0] {
          assert s'.workers[i].repo == r;
        } else if r in s.queue {
          assert s.queue == [s.queue[0]] + s.queue[1..];
        } else if OnIt(s, r) {
          var k :| 0 <= k < |s.workers| && s.workers[k].Awaiting? && s.workers[k].repo == r;
          assert k != i && s'.workers[k] == s.workers[k];
        }
      }
    }
  }

  /** A worker that stops paging a repository while `complete` stands has seen all of its window. */
  lemma StoppedIsFinished(rows: seq<Row>, repo: nat, w: Window, lo: nat, off: nat, exhausted: bool)
    requires NewestFirst(rows, repo) && lo <= off <= |rows| && (exhausted ==> off == |rows|)
    requires exhausted || exists k :: 0 <= k < off - lo && Older(rows[lo..off][k], w)
    ensures InWindow(rows[..off], w) == InWindow(rows, w)
  {
    if exhausted {
      assert rows[..off] == rows;
    } else {
      var k :| 0 <= k < off - lo && Older(rows[lo..off][k], w);
      OlderEndsTheWindow(rows, repo, w, lo + k, off);
    }
  }

  lemma LandKeepsCover(job: Job, s: State, i: nat, off: nat, exhausted: bool, s': State)
    requires WellFormed(job) && ScanInv(job, s) && CoverInv(job, s) && LandStep(job, s, i, off, exhausted, s')
    ensures CoverInv(job, s')
  {
    if s'.complete {
      var a := s.workers[i];
      forall r | r in job.repos ensures r in s'.queue || OnIt(s', r) || Finished(job, s', r) {
        if r == a.repo {
          if s'.workers[i].Awaiting? {
            assert OnIt(s', r);
          } else {
            StoppedIsFinished(job.index(r), r, job.window, a.off, off, exhausted);
          }
        } else if OnIt(s, r) {
          var k :| 0 <= k < |s.workers| && s.workers[k].Awaiting? && s.workers[k].repo == r;
          assert k != i && s'.workers[k] == s.workers[k];
        }
      }
    }
  }

  lemma StepKeepsInv(job: Job, s: State, e: Event, s': State)
    requires WellFormed(job) && BudgetInv(s) && ScanInv(job, s) && CoverInv(job, s) && Step(job, s, e, s')
    ensures ScanInv(job, s') && CoverInv(job, s')
  {
    match e {
      case Take(i) =>
        TakeKeepsScan(job, s, i, s');
        TakeKeepsCover(job, s, i, s');
      case Land(i, off, exhausted) =>
        LandKeepsScan(job, s, i, off, exhausted, s');
        LandKeepsCover(job, s, i, off, exhausted, s');
    }
  }

  lemma InitInv(job: Job, s: State)
    requires WellFormed(job) && Init(job, s)
    ensures ScanInv(job, s) && CoverInv(job, s)
  {
    assert forall r :: r in job.repos ==> job.index(r)[..0] == [];
  }

  lemma {:induction false} InvInRun(job: Job, ss: seq<State>, es: seq<Event>, n: nat)
    requires WellFormed(job) && IsRun(job, ss, es) && n < |ss|
    ensures ScanInv(job, ss[n]) && CoverInv(job, ss[n])
  {
    if n == 0 {
      InitInv(job, ss[0]);
    } else {
      InvInRun(job, ss, es, n - 1);
      BudgetInRun(job, ss, es, n - 1);
      StepKeepsInv(job, ss[n - 1], es[n - 1], ss[n]);
    }
  }

  // ---- the result -------------------------------------------------------------------------------------

  function RepoIdsRead(repos: seq<nat>, read: set<nat>): seq<nat> {
    if repos == [] then [] else (if repos[0] in read then [repos[0]] else []) + RepoIdsRead(repos[1..], read)
  }

  function In(read: set<nat>): nat -> bool {
    (r: nat) => r in read
  }

  /** Exactly the repositories in scope that were read, in their order. */
  lemma {:induction false} ReadIsFilter(repos: seq<nat>, read: set<nat>)
    ensures IsFilter(repos, In(read), RepoIdsRead(repos, read))
  {
    if repos == [] {
      FilterOfNone(In(read));
    } else {
      ReadIsFilter(repos[1..], read);
      FilterCons(repos[0], repos[1..], In(read), RepoIdsRead(repos[1..], read));
      assert [repos[0]] + repos[1..] == repos;
    }
  }

  lemma {:induction false} AllRead(repos: seq<nat>, read: set<nat>)
    requires forall r :: r in repos ==> r in read
    ensures RepoIdsRead(repos, read) == repos
  {
    if repos != [] {
      assert repos[0] in repos && forall r :: r in repos[1..] ==> r in repos;
      AllRead(repos[1..], read);
      assert repos == [repos[0]] + repos[1..];
    }
  }

  ghost predicate Finish(s: State) {
    forall i :: 0 <= i < |s.workers| ==> s.workers[i].Done?
  }

  /**
   * For every scheduling: when all workers have stopped and `complete` stands, the rows collected of
   * each repository in scope are exactly the rows of its index that lie in the window, each as often
   * as it occurs and in index order; there are no others, and every repository in scope was read.
   */
  lemma CompleteIsExact(job: Job, ss: seq<State>, es: seq<Event>)
    requires WellFormed(job) && IsRun(job, ss, es) && Finish(ss[|es|]) && ss[|es|].complete
    ensures forall r :: r in job.repos ==>
              exists part :: IsFilter(ss[|es|].runs, From(r), part) && IsFilter(job.index(r), Dated(job.window), part)
    ensures forall i :: 0 <= i < |ss[|es|].runs| ==> ss[|es|].runs[i].repo in job.repos
    ensures RepoIdsRead(job.repos, ss[|es|].read) == job.repos
  {
    var s := ss[|es|];
    InvInRun(job, ss, es, |es|);
    WorkersStay(job, ss, es, |es|);
    assert s.workers[0].Done?;
    forall r | r in job.repos ensures Finished(job, s, r) && Scanned(job, s.runs, r, s.walked[r]) {
      assert r in s.queue || OnIt(s, r) || Finished(job, s, r);
    }
    forall r | r in job.repos
      ensures exists part :: IsFilter(s.runs, From(r), part) && IsFilter(job.index(r), Dated(job.window), part)
    {
      assert Finished(job, s, r) && Scanned(job, s.runs, r, s.walked[r]);
      OfRepoIsFilter(s.runs, r);
      InWindowIsFilter(job.index(r), job.window);
      assert OfRepo(s.runs, r) == InWindow(job.index(r), job.window);
    }
    AllRead(job.repos, s.read);
  }

  /** Complete or not, what is collected of a repository is the in-window part of a leading stretch of its index. */
  lemma NeverForeignNeverTwice(job: Job, ss: seq<State>, es: seq<Event>, n: nat)
    requires WellFormed(job) && IsRun(job, ss, es) && n < |ss|
    ensures forall i :: 0 <= i < |ss[n].runs| ==> ss[n].runs[i].repo in job.repos
    ensures forall r :: r in job.repos ==> exists off: nat, part :: LeadingPart(job, ss[n].runs, r, off, part)
  {
    InvInRun(job, ss, es, n);
    forall r | r in job.repos ensures exists off: nat, part :: LeadingPart(job, ss[n].runs, r, off, part) {
      var off := ss[n].walked[r];
      assert Scanned(job, ss[n].runs, r, off);
      OfRepoIsFilter(ss[n].runs, r);
      InWindowIsFilter(job.index(r)[..off], job.window);
      assert LeadingPart(job, ss[n].runs, r, off, OfRepo(ss[n].runs, r));
    }
  }

  /** `part` is what was collected of `repo`: the in-window rows of the first `off` of its index. */
  ghost predicate LeadingPart(job: Job, runs: seq<Row>, repo: nat, off: nat, part: seq<Row>) {
    off <= |job.index(repo)| && IsFilter(runs, From(repo), part) && IsFilter(job.index(repo)[..off], Dated(job.window), part)
  }

  lemma {:induction false} WorkersStay(job: Job, ss: seq<State>, es: seq<Event>, n: nat)
    requires IsRun(job, ss, es) && n < |ss|
    ensures |ss[n].workers| == WorkerCount(job.repos)
  {
    if n > 0 {
      WorkersStay(job, ss, es, n - 1);
      assert Step(job, ss[n - 1], es[n - 1], ss[n]);
    }
  }

  /** The last page a worker may read of a repository landed with history left: no older row, and a live cursor. */
  ghost predicate LeftHistory(job: Job, s: State, e: Event, s': State) {
    && e.Land? && !e.exhausted && e.worker < |s.workers| && s.workers[e.worker].Awaiting?
    && s.workers[e.worker].page == 19 && |s'.runs| < 20000
    && var a, rows := s.workers[e.worker], job.index(s.workers[e.worker].repo);
       a.off <= e.off <= |rows| && forall k :: a.off <= k < e.off && rows[k].at.Some? ==> rows[k].at.value >= job.window.from
  }

  /** A report is incomplete exactly when the row budget was reached or some repository had history left. */
  lemma {:induction false} IncompleteIff(job: Job, ss: seq<State>, es: seq<Event>, n: nat)
    requires IsRun(job, ss, es) && n < |ss|
    ensures !ss[n].complete <==>
            |ss[n].runs| >= 20000 || exists k :: 0 <= k < n && LeftHistory(job, ss[k], es[k], ss[k + 1])
  {
    BudgetInRun(job, ss, es, n);
    if n > 0 {
      IncompleteIff(job, ss, es, n - 1);
      BudgetInRun(job, ss, es, n - 1);
      StepCompletes(job, ss[n - 1], es[n - 1], ss[n]);
    }
  }

  lemma StepCompletes(job: Job, s: State, e: Event, s': State)
    requires Step(job, s, e, s') && BudgetInv(s) && BudgetInv(s')
    ensures |s.runs| <= |s'.runs|
    ensures !s'.complete <==> !s.complete || |s'.runs| >= 20000 || LeftHistory(job, s, e, s')
  {
    if e.Land? {
      var a, rows := s.workers[e.worker], job.index(s.workers[e.worker].repo);
      var page := rows[a.off..e.off];
      assert forall k :: a.off <= k < e.off ==> rows[k] == page[k - a.off];
      assert forall k :: 0 <= k < |page| ==> page[k] == rows[a.off + k];
    }
  }
}
