/**
 * Which lines the diff shows. `Diff.DiffIsPatch` holds of many patches; this one is decided: one hunk for
 * each run of changed lines at most six apart, three lines around it, and every changed line once.
 */
module DiffShape {
  import opened Diff

  /** How many lines of `lo..hi`, without `hi`, are changed. */
  ghost function ChangedIn(changed: seq<nat>, lo: nat, hi: nat): nat
    decreases hi - lo
  {
    if lo >= hi then 0 else (if lo in changed then 1 else 0) + ChangedIn(changed, lo + 1, hi)
  }

  /** What a body shows at index `at` for line `ln`. */
  ghost predicate ShownAt(before: seq<string>, after: seq<string>, lines: seq<string>, isChanged: bool, ln: nat, at: nat)
    requires 1 <= ln <= |before| == |after|
  {
    if isChanged then
      at + 1 < |lines| && lines[at] == "-" + before[ln - 1] && lines[at + 1] == "+" + after[ln - 1]
    else
      at < |lines| && lines[at] == " " + before[ln - 1]
  }

  /** Line `ln` is shown behind the lines before it: one body line for each, and another for each changed. */
  ghost predicate ShowsLine(
    before: seq<string>, after: seq<string>, changed: seq<nat>, lines: seq<string>, start: nat, ln: nat
  )
    requires 1 <= start <= ln <= |before| == |after|
  {
    ShownAt(before, after, lines, ln in changed, ln, ln - start + ChangedIn(changed, start, ln))
  }

  /** `lines` shows every line of `start..end` once and in order, a changed one as removed, then added. */
  ghost predicate Shows(before: seq<string>, after: seq<string>, changed: seq<nat>, lines: seq<string>, start: nat, end: nat)
    requires 1 <= start <= end + 1 && end <= |before| == |after|
  {
    && |lines| == end + 1 - start + ChangedIn(changed, start, end + 1)
    && forall ln :: start <= ln <= end ==> ShowsLine(before, after, changed, lines, start, ln)
  }

  lemma {:induction false} BodyShows(before: seq<string>, after: seq<string>, group: seq<nat>, ln: nat, end: nat)
    requires 1 <= ln <= end + 1 && end <= |before| == |after|
    ensures Shows(before, after, group, Body(before, after, group, ln, end), ln, end)
    decreases end + 1 - ln
  {
    if ln <= end {
      BodyShows(before, after, group, ln + 1, end);
      var first := if ln in group then ["-" + before[ln - 1], "+" + after[ln - 1]] else [" " + before[ln - 1]];
      ShowsCons(before, after, group, first, Body(before, after, group, ln + 1, end), ln, end);
    }
  }

  lemma ShowsCons(
    before: seq<string>, after: seq<string>, group: seq<nat>, first: seq<string>, rest: seq<string>, ln: nat, end: nat
  )
    requires 1 <= ln <= end <= |before| == |after|
    requires first == if ln in group then ["-" + before[ln - 1], "+" + after[ln - 1]] else [" " + before[ln - 1]]
    requires Shows(before, after, group, rest, ln + 1, end)
    ensures Shows(before, after, group, first + rest, ln, end)
  {
    forall k | ln <= k <= end ensures ShowsLine(before, after, group, first + rest, ln, k) {
      if k > ln {
        assert ShowsLine(before, after, group, rest, ln + 1, k);
        ShownBehind(before, after, rest, first, k in group, k, k - (ln + 1) + ChangedIn(group, ln + 1, k));
      }
    }
  }

  lemma ShownBehind(
    before: seq<string>, after: seq<string>, rest: seq<string>, first: seq<string>, isChanged: bool, ln: nat, at: nat
  )
    requires 1 <= ln <= |before| == |after|
    requires ShownAt(before, after, rest, isChanged, ln, at)
    ensures ShownAt(before, after, first + rest, isChanged, ln, at + |first|)
  {
  }

  /** The two lists hold the same lines of `start..end`. */
  ghost predicate Alike(group: seq<nat>, changed: seq<nat>, start: nat, end: nat) {
    forall x {:trigger x in group} :: start <= x <= end ==> (x in group <==> x in changed)
  }

  lemma {:induction false} ChangedAlike(group: seq<nat>, changed: seq<nat>, lo: nat, hi: nat, start: nat, end: nat)
    requires Alike(group, changed, start, end) && start <= lo && hi <= end + 1
    ensures ChangedIn(group, lo, hi) == ChangedIn(changed, lo, hi)
    decreases hi - lo
  {
    if lo < hi {
      ChangedAlike(group, changed, lo + 1, hi, start, end);
      assert lo in group <==> lo in changed;
    }
  }

  /** Only the changed lines inside the window matter to what a body shows. */
  lemma ShowsSame(
    before: seq<string>, after: seq<string>, group: seq<nat>, changed: seq<nat>, lines: seq<string>, start: nat, end: nat
  )
    requires 1 <= start <= end + 1 && end <= |before| == |after|
    requires Alike(group, changed, start, end)
    requires Shows(before, after, group, lines, start, end)
    ensures Shows(before, after, changed, lines, start, end)
  {
    ChangedAlike(group, changed, start, end + 1, start, end);
    forall ln | start <= ln <= end ensures ShowsLine(before, after, changed, lines, start, ln) {
      assert ShowsLine(before, after, group, lines, start, ln);
      ChangedAlike(group, changed, start, ln, start, end);
      assert ln in group <==> ln in changed;
    }
  }

  // ---- runs of changed lines ------------------------------------------------------------------------------

  /** Another changed line follows `c`, at most six further down. */
  ghost predicate HasNext(changed: seq<nat>, c: nat) {
    exists d :: d in changed && c < d <= c + 6
  }

  /** `first` and `last` are changed, and from one to the other no step to the next changed line is over six. */
  ghost predicate OneRun(changed: seq<nat>, first: nat, last: nat) {
    && first in changed && last in changed && first <= last
    && forall c {:trigger HasNext(changed, c)} :: c in changed && first <= c < last ==> HasNext(changed, c)
  }

  /** The hunk covers the run and three lines on each side, as far as the file goes. */
  ghost predicate Frames(h: Hunk, total: nat, first: nat, last: nat) {
    && h.oldStart == h.newStart == (if first > 3 then first - 3 else 1)
    && h.oldCount == h.newCount
    && h.oldStart + h.oldCount == (if last + 3 < total then last + 3 else total) + 1
  }

  /** Hunk `h` is what the diff shows for the run `first..last`. */
  ghost predicate HunkOfRun(before: seq<string>, after: seq<string>, changed: seq<nat>, h: Hunk, first: nat, last: nat) {
    && |before| == |after|
    && OneRun(changed, first, last)
    && Frames(h, |before|, first, last)
    && 1 <= h.oldStart && h.oldStart + h.oldCount - 1 <= |before|
    && Shows(before, after, changed, h.lines, h.oldStart, h.oldStart + h.oldCount - 1)
  }

  lemma {:induction false} NextInRun(s: seq<nat>, i: nat) returns (d: nat)
    requires IsRun(s) && Ascending(s) && i < |s| && s[i] < s[|s| - 1]
    ensures d in s && s[i] < d <= s[i] + 6
    decreases |s| - i
  {
    if s[i + 1] > s[i] {
      d := s[i + 1];
    } else {
      d := NextInRun(s, i + 1);
    }
  }

  lemma {:induction false} LeadingRun(s: seq<nat>)
    requires s != []
    ensures IsRun(s[..RunLength(s)])
  {
    if |s| > 1 && s[1] - s[0] <= 2 * CONTEXT {
      LeadingRun(s[1..]);
      var n := RunLength(s);
      assert forall i :: 0 < i < n ==> s[..n][i] == s[1..][..n - 1][i - 1];
    }
  }

  /** The first run's lines are the ones up to its last, and the others are over six further down. */
  lemma Parted(s: seq<nat>, x: nat)
    requires s != [] && Ascending(s) && x in s
    ensures var n := RunLength(s);
            (x in s[..n] && s[0] <= x <= s[n - 1]) || (x in s[n..] && s[n - 1] + 6 < x)
  {
    var n := RunLength(s);
    GroupSpan(s);
    var i :| 0 <= i < |s| && s[i] == x;
    if i < n {
      assert s[..n][i] == x;
    } else {
      assert s[n..][i - n] == x;
    }
  }

  lemma FirstHasNext(s: seq<nat>, c: nat)
    requires s != [] && Ascending(s) && c in s && c < s[RunLength(s) - 1]
    ensures HasNext(s, c)
  {
    var n := RunLength(s);
    var run := s[..n];
    Parted(s, c);
    LeadingRun(s);
    AscendingSlices(s, n);
    assert run[n - 1] == s[n - 1];
    var i :| 0 <= i < |run| && run[i] == c;
    var d := NextInRun(run, i);
    assert d in s;
  }

  lemma FirstRun(s: seq<nat>)
    requires s != [] && Ascending(s)
    ensures OneRun(s, s[0], s[RunLength(s) - 1])
  {
    var last := s[RunLength(s) - 1];
    Parted(s, last);
    forall c | c in s && s[0] <= c < last ensures HasNext(s, c) {
      FirstHasNext(s, c);
    }
  }

  /** `rest` is the changed lines after `end`, all over six further down. */
  ghost predicate Behind(s: seq<nat>, end: nat, rest: seq<nat>) {
    && (forall x :: x in rest ==> x in s && end + 6 < x)
    && (forall x :: x in s ==> x <= end || x in rest)
  }

  lemma RestIsBehind(s: seq<nat>)
    requires s != [] && Ascending(s)
    ensures Behind(s, s[RunLength(s) - 1], s[RunLength(s)..])
  {
    GroupSpan(s);
    var n := RunLength(s);
    forall x | x in s ensures x <= s[n - 1] || x in s[n..] {
      Parted(s, x);
    }
    forall x | x in s[n..] ensures x in s && s[n - 1] + 6 < x {
      var i :| 0 <= i < |s[n..]| && s[n..][i] == x;
      assert s[n + i] == x;
    }
  }

  /** A run of the lines behind is a run of all. */
  lemma LaterRun(s: seq<nat>, end: nat, rest: seq<nat>, first: nat, last: nat)
    requires Behind(s, end, rest) && OneRun(rest, first, last)
    ensures OneRun(s, first, last) && end + 6 < first
  {
    forall c | c in s && first <= c < last ensures HasNext(s, c) {
      assert c in rest && HasNext(rest, c);
      var d :| d in rest && c < d <= c + 6;
    }
  }

  lemma FirstHunk(before: seq<string>, after: seq<string>, s: seq<nat>)
    requires s != [] && Ascending(s) && InRange(before, s) && |before| == |after|
    ensures var group := s[..RunLength(s)];
            && Ascending(group) && InRange(before, group)
            && HunkOfRun(before, after, s, HunkOf(before, after, group), s[0], s[RunLength(s) - 1])
  {
    var n := RunLength(s);
    var group := s[..n];
    FirstFits(before, s);
    FirstRun(s);
    FirstWindow(s, Start(group), End(before, group));
    HunkShows(before, after, s, group, s[0], s[n - 1]);
  }

  lemma FirstFits(before: seq<string>, s: seq<nat>)
    requires s != [] && Ascending(s) && InRange(before, s)
    ensures var group := s[..RunLength(s)];
            && Ascending(group) && InRange(before, group)
            && group[0] == s[0] && group[|group| - 1] == s[RunLength(s) - 1]
            && Start(group) <= End(before, group) <= s[RunLength(s) - 1] + CONTEXT
  {
    GroupWindow(before, s, 0);
  }

  lemma HunkShows(before: seq<string>, after: seq<string>, s: seq<nat>, group: seq<nat>, first: nat, last: nat)
    requires group != [] && Ascending(group) && InRange(before, group) && |before| == |after|
    requires group[0] == first && group[|group| - 1] == last && OneRun(s, first, last)
    requires Start(group) <= End(before, group)
    requires Alike(group, s, Start(group), End(before, group))
    ensures HunkOfRun(before, after, s, HunkOf(before, after, group), first, last)
  {
    var start, end := Start(group), End(before, group);
    BodyShows(before, after, group, start, end);
    ShowsSame(before, after, group, s, Body(before, after, group, start, end), start, end);
  }

  /** Inside the first run's window, the changed lines are those of the run. */
  lemma FirstWindow(s: seq<nat>, start: nat, end: nat)
    requires s != [] && Ascending(s) && end <= s[RunLength(s) - 1] + CONTEXT
    ensures Alike(s[..RunLength(s)], s, start, end)
  {
    forall x | start <= x <= end ensures x in s[..RunLength(s)] <==> x in s {
      if x in s {
        Parted(s, x);
      }
    }
  }

  /** A hunk of a run behind shows the same with all lines counted. */
  lemma LaterHunk(
    before: seq<string>, after: seq<string>, s: seq<nat>, end: nat, rest: seq<nat>, h: Hunk, first: nat, last: nat
  )
    requires Behind(s, end, rest) && HunkOfRun(before, after, rest, h, first, last)
    ensures HunkOfRun(before, after, s, h, first, last) && end + 6 < first
  {
    LaterRun(s, end, rest, first, last);
    ShowsSame(before, after, rest, s, h.lines, h.oldStart, h.oldStart + h.oldCount - 1);
  }

  /** Line `c` lies in one of the runs. */
  ghost predicate InRun(runs: seq<(nat, nat)>, c: nat) {
    exists i :: 0 <= i < |runs| && runs[i].0 <= c <= runs[i].1
  }

  /** Neighbouring runs are over six lines apart. */
  ghost predicate Apart(runs: seq<(nat, nat)>) {
    forall i, j :: 0 <= i < j < |runs| ==> runs[i].1 + 6 < runs[j].0
  }

  ghost predicate AllRuns(changed: seq<nat>, runs: seq<(nat, nat)>) {
    forall i :: 0 <= i < |runs| ==> OneRun(changed, runs[i].0, runs[i].1)
  }

  /** The runs of the changed lines, in order, with nothing changed outside them. */
  ghost predicate AreRuns(changed: seq<nat>, runs: seq<(nat, nat)>) {
    && AllRuns(changed, runs)
    && Apart(runs)
    && (forall c {:trigger InRun(runs, c)} :: c in changed ==> InRun(runs, c))
  }

  lemma {:induction false} HunksShow(before: seq<string>, after: seq<string>, s: seq<nat>) returns (runs: seq<(nat, nat)>)
    requires Ascending(s) && InRange(before, s) && |before| == |after|
    ensures AreRuns(s, runs)
    ensures AreHunksOf(before, after, s, Hunks(before, after, s), runs)
    decreases |s|
  {
    if s == [] {
      runs := [];
    } else {
      var n := RunLength(s);
      AscendingSlices(s, n);
      var later := HunksShow(before, after, s[n..]);
      FirstHunk(before, after, s);
      FirstRun(s);
      RestIsBehind(s);
      HunksCons(before, after, s);
      runs := [(s[0], s[n - 1])] + later;
      RunsCons(s, s[0], s[n - 1], s[n..], later);
      var hunks := Hunks(before, after, s[n..]);
      ConsHunks(before, after, s, s[0], s[n - 1], s[n..], HunkOf(before, after, s[..n]), hunks, later);
    }
  }

  /** The hunks of the diff are those of the runs, in the same order. */
  ghost predicate AreHunksOf(
    before: seq<string>, after: seq<string>, changed: seq<nat>, hunks: seq<Hunk>, runs: seq<(nat, nat)>
  ) {
    && |hunks| == |runs|
    && forall i :: 0 <= i < |runs| ==> HunkOfRun(before, after, changed, hunks[i], runs[i].0, runs[i].1)
  }

  lemma ConsHunks(
    before: seq<string>, after: seq<string>, s: seq<nat>, first: nat, last: nat, rest: seq<nat>, h: Hunk,
    hunks: seq<Hunk>, later: seq<(nat, nat)>
  )
    requires Behind(s, last, rest) && HunkOfRun(before, after, s, h, first, last)
    requires AreHunksOf(before, after, rest, hunks, later)
    ensures AreHunksOf(before, after, s, [h] + hunks, [(first, last)] + later)
  {
    var runs := [(first, last)] + later;
    forall i | 0 <= i < |runs| ensures HunkOfRun(before, after, s, ([h] + hunks)[i], runs[i].0, runs[i].1) {
      if i > 0 {
        LaterHunk(before, after, s, last, rest, hunks[i - 1], later[i - 1].0, later[i - 1].1);
      }
    }
  }

  lemma RunsCons(s: seq<nat>, first: nat, last: nat, rest: seq<nat>, later: seq<(nat, nat)>)
    requires Behind(s, last, rest) && OneRun(s, first, last) && AreRuns(rest, later)
    requires forall c :: c in s ==> first <= c
    ensures AreRuns(s, [(first, last)] + later)
  {
    var runs := [(first, last)] + later;
    forall i | 0 <= i < |later| ensures OneRun(s, later[i].0, later[i].1) && last + 6 < later[i].0 {
      LaterRun(s, last, rest, later[i].0, later[i].1);
    }
    ApartCons(first, last, later);
    AllRunsCons(s, first, last, later);
    forall c | c in s ensures InRun(runs, c) {
      if c > last {
        assert c in rest && InRun(later, c);
      }
      InRunCons(last, first, later, c);
    }
  }

  lemma ApartCons(first: nat, last: nat, later: seq<(nat, nat)>)
    requires Apart(later) && forall i :: 0 <= i < |later| ==> last + 6 < later[i].0
    ensures Apart([(first, last)] + later)
  {
  }

  lemma AllRunsCons(s: seq<nat>, first: nat, last: nat, later: seq<(nat, nat)>)
    requires OneRun(s, first, last) && AllRuns(s, later)
    ensures AllRuns(s, [(first, last)] + later)
  {
  }

  lemma InRunCons(last: nat, first: nat, later: seq<(nat, nat)>, c: nat)
    requires first <= c <= last || InRun(later, c)
    ensures InRun([(first, last)] + later, c)
  {
    var runs := [(first, last)] + later;
    if first <= c <= last {
      assert runs[0].0 <= c <= runs[0].1;
    } else {
      var i :| 0 <= i < |later| && later[i].0 <= c <= later[i].1;
      assert runs[i + 1] == later[i];
    }
  }

  /** Runs and hunks of two lists of the same line numbers are the same. */
  lemma RunsOfSame(s: seq<nat>, t: seq<nat>, runs: seq<(nat, nat)>)
    requires AreRuns(s, runs) && forall x :: x in s <==> x in t
    ensures AreRuns(t, runs)
  {
    forall i | 0 <= i < |runs| ensures OneRun(t, runs[i].0, runs[i].1) {
      SameRun(s, t, runs[i].0, runs[i].1);
    }
    forall c | c in t ensures InRun(runs, c) {
      assert c in s;
    }
  }

  lemma SameRun(s: seq<nat>, t: seq<nat>, first: nat, last: nat)
    requires OneRun(s, first, last) && forall x :: x in s <==> x in t
    ensures OneRun(t, first, last)
  {
    forall c | c in t && first <= c < last ensures HasNext(t, c) {
      assert HasNext(s, c);
      var d :| d in s && c < d <= c + 6;
    }
  }

  lemma SameHunk(before: seq<string>, after: seq<string>, s: seq<nat>, t: seq<nat>, h: Hunk, first: nat, last: nat)
    requires HunkOfRun(before, after, s, h, first, last) && forall x :: x in s <==> x in t
    ensures HunkOfRun(before, after, t, h, first, last)
  {
    assert Alike(s, t, h.oldStart, h.oldStart + h.oldCount - 1);
    SameRun(s, t, first, last);
    ShowsSame(before, after, s, t, h.lines, h.oldStart, h.oldStart + h.oldCount - 1);
  }

  /**
   * What the diff shows, whatever order the changed lines are listed in: its hunks are the runs of changed
   * lines at most six apart, one hunk each and in order; a hunk covers its run and three lines on each side
   * as far as the file goes; and it shows each of those lines once, a changed one as removed and then added.
   */
  lemma DiffShowsRuns(before: seq<string>, after: seq<string>, changed: seq<nat>) returns (runs: seq<(nat, nat)>)
    requires InRange(before, changed) && |before| == |after|
    ensures AreRuns(changed, runs)
    ensures AreHunksOf(before, after, changed, UnifiedDiff(before, after, changed), runs)
  {
    var sorted := Sort(changed);
    SortAscends(changed);
    SortInRange(before, changed);
    runs := HunksShow(before, after, sorted);
    RunsOfSame(sorted, changed, runs);
    var hunks := Hunks(before, after, sorted);
    forall i | 0 <= i < |runs| ensures HunkOfRun(before, after, changed, hunks[i], runs[i].0, runs[i].1) {
      SameHunk(before, after, sorted, changed, hunks[i], runs[i].0, runs[i].1);
    }
  }
}
