/** The unified diff printer, and an independent patch applier it is checked against. */
module Diff {
  import opened Text

  const CONTEXT := 3

  /** One `@@ -start,count +start,count @@` hunk; body lines carry their prefix character. */
  datatype Hunk = Hunk(oldStart: nat, oldCount: nat, newStart: nat, newCount: nat, lines: seq<string>)

  // ---- the printer --------------------------------------------------------------------------------

  function InsertSorted(x: nat, s: seq<nat>): (r: seq<nat>)
    ensures forall y :: y in r <==> y == x || y in s
  {
    if s == [] then [x]
    else if x <= s[0] then [x] + s
    else
      assert s == [s[0]] + s[1..];
      [s[0]] + InsertSorted(x, s[1..])
  }

  function Sort(s: seq<nat>): (r: seq<nat>)
    ensures forall y :: y in r <==> y in s
  {
    if s == [] then []
    else
      assert s == [s[0]] + s[1..];
      InsertSorted(s[0], Sort(s[1..]))
  }

  predicate Ascending(s: seq<nat>) {
    forall i, j :: 0 <= i < j < |s| ==> s[i] <= s[j]
  }

  /** How many leading lines have touching context windows. */
  function RunLength(s: seq<nat>): (n: nat)
    requires s != []
    ensures 1 <= n <= |s|
  {
    if |s| > 1 && s[1] - s[0] <= 2 * CONTEXT then 1 + RunLength(s[1..]) else 1
  }

  function Groups(s: seq<nat>): seq<seq<nat>> {
    if s == [] then []
    else
      var n := RunLength(s);
      [s[..n]] + Groups(s[n..])
  }

  /** Body lines for old lines `ln..end` (1-based, inclusive). */
  function Body(before: seq<string>, after: seq<string>, group: seq<nat>, ln: nat, end: nat): seq<string>
    requires 1 <= ln <= end + 1 && end <= |before| == |after|
    decreases end + 1 - ln
  {
    if ln == end + 1 then []
    else
      (if ln in group then ["-" + before[ln - 1], "+" + after[ln - 1]] else [" " + before[ln - 1]])
      + Body(before, after, group, ln + 1, end)
  }

  function Start(group: seq<nat>): (n: nat)
    requires group != []
    ensures n >= 1
  {
    if group[0] > CONTEXT then group[0] - CONTEXT else 1
  }

  function End(before: seq<string>, group: seq<nat>): nat
    requires group != []
  {
    var e := group[|group| - 1] + CONTEXT;
    if e < |before| then e else |before|
  }

  predicate InRange(before: seq<string>, lines: seq<nat>) {
    forall i :: 0 <= i < |lines| ==> 1 <= lines[i] <= |before|
  }

  function HunkOf(before: seq<string>, after: seq<string>, group: seq<nat>): Hunk
    requires group != [] && Ascending(group) && InRange(before, group) && |before| == |after|
  {
    assert group[0] <= group[|group| - 1];
    var start, end := Start(group), End(before, group);
    Hunk(start, end - start + 1, start, end - start + 1, Body(before, after, group, start, end))
  }

  function Hunks(before: seq<string>, after: seq<string>, sorted: seq<nat>): seq<Hunk>
    requires Ascending(sorted) && InRange(before, sorted) && |before| == |after|
  {
    if sorted == [] then []
    else
      var n := RunLength(sorted);
      [HunkOf(before, after, sorted[..n])] + Hunks(before, after, sorted[n..])
  }

  lemma {:induction false} SortAscends(s: seq<nat>)
    ensures Ascending(Sort(s))
  {
    if s != [] {
      SortAscends(s[1..]);
      InsertAscends(s[0], Sort(s[1..]));
    }
  }

  lemma {:induction false} InsertAscends(x: nat, s: seq<nat>)
    requires Ascending(s)
    ensures Ascending(InsertSorted(x, s))
  {
    if s != [] && x > s[0] {
      InsertAscends(x, s[1..]);
      var r := InsertSorted(x, s[1..]);
      forall j | 0 <= j < |r| ensures s[0] <= r[j] {
        assert r[j] in r;
      }
    }
  }

  function UnifiedDiff(before: seq<string>, after: seq<string>, changed: seq<nat>): seq<Hunk>
    requires InRange(before, changed) && |before| == |after|
  {
    SortAscends(changed);
    SortInRange(before, changed);
    Hunks(before, after, Sort(changed))
  }

  lemma SortInRange(before: seq<string>, changed: seq<nat>)
    requires InRange(before, changed)
    ensures InRange(before, Sort(changed))
  {
    var r := Sort(changed);
    forall i | 0 <= i < |r| ensures 1 <= r[i] <= |before| {
      assert r[i] in changed;
    }
  }

  // ---- the applier ----------------------------------------------------------------------------------

  /** Apply body lines at old position `pos`; `None` when a context or removed line does not match. */
  function ApplyBody(old0: seq<string>, pos: nat, lines: seq<string>): Option<(seq<string>, nat)>
    decreases |lines|
  {
    if lines == [] then Some(([], pos))
    else
      var l := lines[0];
      if StartsWith(l, "+") then
        match ApplyBody(old0, pos, lines[1..])
        case None => None
        case Some((out, p)) => Some(([l[1..]] + out, p))
      else if pos < |old0| && (l == " " + old0[pos] || l == "-" + old0[pos]) then
        match ApplyBody(old0, pos + 1, lines[1..])
        case None => None
        case Some((out, p)) => Some(((if l[0] == ' ' then [old0[pos]] else []) + out, p))
      else None
  }

  /** What a hunk whose body came to `body` contributes: its header must count what its body holds. */
  function HunkResult(old0: seq<string>, pos: nat, made: nat, h: Hunk, body: Option<(seq<string>, nat)>)
    : (r: Option<(seq<string>, nat, nat)>)
    requires pos < h.oldStart <= |old0| + 1
    ensures r.Some? ==> r.value.1 <= |old0|
  {
    var skip := old0[pos..h.oldStart - 1];
    match body
    case None => None
    case Some((out, p)) =>
      if p > |old0| || p != h.oldStart - 1 + h.oldCount || |out| != h.newCount || h.newStart != made + |skip| + 1 then None
      else Some((skip + out, p, made + |skip| + |out|))
  }

  /**
   * Apply one hunk to `old0` from position `pos`, with `made` new lines written so far: the lines
   * written, and the positions after it.
   */
  function ApplyOne(old0: seq<string>, pos: nat, made: nat, h: Hunk): (r: Option<(seq<string>, nat, nat)>)
    requires pos <= |old0|
    ensures r.Some? ==> r.value.1 <= |old0|
  {
    if h.oldStart < pos + 1 || h.oldStart > |old0| + 1 then None
    else HunkResult(old0, pos, made, h, ApplyBody(old0, h.oldStart - 1, h.lines))
  }

  /** Apply hunks in order; they must be ascending and disjoint. What follows the last is kept. */
  function Apply(old0: seq<string>, pos: nat, made: nat, hunks: seq<Hunk>): Option<seq<string>>
    requires pos <= |old0|
    decreases |hunks|
  {
    if hunks == [] then Some(old0[pos..])
    else
      match ApplyOne(old0, pos, made, hunks[0])
      case None => None
      case Some((out, p, m)) =>
        match Apply(old0, p, m, hunks[1..])
        case None => None
        case Some(rest) => Some(out + rest)
  }

  // ---- the printer's output is a patch ----------------------------------------------------------------

  /** Every line at or after `pos` that is not listed is the same on both sides. */
  ghost predicate OnlyChanged(before: seq<string>, after: seq<string>, lines: seq<nat>, pos: nat) {
    && |before| == |after|
    && forall i :: pos <= i < |before| && (i + 1) !in lines ==> before[i] == after[i]
  }

  /** `out` in front of what the rest of a body yields. */
  function Ahead(out: seq<string>, r: Option<(seq<string>, nat)>): Option<(seq<string>, nat)> {
    match r
    case None => None
    case Some((o, p)) => Some((out + o, p))
  }

  lemma ApplyContext(old0: seq<string>, pos: nat, rest: seq<string>)
    requires pos < |old0|
    ensures ApplyBody(old0, pos, [" " + old0[pos]] + rest) == Ahead([old0[pos]], ApplyBody(old0, pos + 1, rest))
  {
    assert ([" " + old0[pos]] + rest)[1..] == rest;
  }

  lemma ApplyAdd(old0: seq<string>, pos: nat, line: string, rest: seq<string>)
    ensures ApplyBody(old0, pos, ["+" + line] + rest) == Ahead([line], ApplyBody(old0, pos, rest))
  {
    var plus := "+" + line;
    assert ([plus] + rest)[1..] == rest && plus[1..] == line && StartsWith(plus, "+");
  }

  lemma ApplyRemove(old0: seq<string>, pos: nat, rest: seq<string>)
    requires pos < |old0|
    ensures ApplyBody(old0, pos, ["-" + old0[pos]] + rest) == Ahead([], ApplyBody(old0, pos + 1, rest))
  {
    var minus := "-" + old0[pos];
    assert ([minus] + rest)[1..] == rest && minus[0] == '-' && !StartsWith(minus, "+");
  }

  lemma ApplyReplace(old0: seq<string>, pos: nat, line: string, rest: seq<string>)
    requires pos < |old0|
    ensures ApplyBody(old0, pos, ["-" + old0[pos], "+" + line] + rest) == Ahead([line], ApplyBody(old0, pos + 1, rest))
  {
    var added := ["+" + line] + rest;
    assert ["-" + old0[pos], "+" + line] + rest == ["-" + old0[pos]] + added;
    ApplyRemove(old0, pos, added);
    ApplyAdd(old0, pos + 1, line, rest);
    var r := ApplyBody(old0, pos + 1, rest);
    assert r.Some? ==> [] + ([line] + r.value.0) == [line] + r.value.0;
  }

  lemma {:induction false} BodyApplies(before: seq<string>, after: seq<string>, group: seq<nat>, ln: nat, end: nat)
    requires 1 <= ln <= end + 1 && end <= |before| == |after|
    requires forall i :: ln <= i <= end && i !in group ==> before[i - 1] == after[i - 1]
    ensures ApplyBody(before, ln - 1, Body(before, after, group, ln, end)) == Some((after[ln - 1..end], end))
    decreases end + 1 - ln
  {
    if ln <= end {
      BodyApplies(before, after, group, ln + 1, end);
      var rest := Body(before, after, group, ln + 1, end);
      assert [after[ln - 1]] + after[ln..end] == after[ln - 1..end];
      if ln in group {
        ApplyReplace(before, ln - 1, after[ln - 1], rest);
      } else {
        ApplyContext(before, ln - 1, rest);
      }
    }
  }

  /** The first run ends before anything that is not near it. */
  lemma {:induction false} RunEnds(s: seq<nat>)
    requires s != [] && Ascending(s)
    ensures var n := RunLength(s); n < |s| ==> s[n] - s[n - 1] > 2 * CONTEXT
  {
    if |s| > 1 && s[1] - s[0] <= 2 * CONTEXT {
      RunEnds(s[1..]);
    }
  }

  /** `rest` starts beyond what the patch has already consumed. */
  ghost predicate Beyond(rest: seq<nat>, pos: nat) {
    forall i :: 0 <= i < |rest| ==> pos == 0 < rest[i] || rest[i] > pos + CONTEXT
  }

  lemma HunkCounts(old0: seq<string>, pos: nat, h: Hunk, out: seq<string>, end: nat)
    requires pos < h.oldStart <= end <= |old0|
    requires h.newStart == h.oldStart && h.oldCount == h.newCount == |out| == end - (h.oldStart - 1)
    ensures HunkResult(old0, pos, pos, h, Some((out, end))) == Some((old0[pos..h.oldStart - 1] + out, end, end))
  {
    assert |old0[pos..h.oldStart - 1]| == h.oldStart - 1 - pos;
  }

  lemma OneApplies(old0: seq<string>, pos: nat, h: Hunk, out: seq<string>, end: nat)
    requires pos < h.oldStart <= end <= |old0|
    requires h.newStart == h.oldStart && h.oldCount == h.newCount == |out| == end - (h.oldStart - 1)
    requires ApplyBody(old0, h.oldStart - 1, h.lines) == Some((out, end))
    ensures ApplyOne(old0, pos, pos, h) == Some((old0[pos..h.oldStart - 1] + out, end, end))
  {
    HunkCounts(old0, pos, h, out, end);
  }

  /** One hunk in front of a patch that applies. */
  lemma ApplyCons(old0: seq<string>, pos: nat, h: Hunk, rest: seq<Hunk>, out: seq<string>, end: nat, tail: seq<string>)
    requires pos < h.oldStart <= end <= |old0|
    requires h.newStart == h.oldStart && h.oldCount == h.newCount == |out| == end - (h.oldStart - 1)
    requires ApplyBody(old0, h.oldStart - 1, h.lines) == Some((out, end))
    requires Apply(old0, end, end, rest) == Some(tail)
    ensures Apply(old0, pos, pos, [h] + rest) == Some(old0[pos..h.oldStart - 1] + out + tail)
  {
    OneApplies(old0, pos, h, out, end);
    assert ([h] + rest)[1..] == rest;
  }

  lemma {:induction false} HunksApply(before: seq<string>, after: seq<string>, sorted: seq<nat>, pos: nat)
    requires Ascending(sorted) && InRange(before, sorted) && pos <= |before|
    requires OnlyChanged(before, after, sorted, pos) && Beyond(sorted, pos)
    ensures Apply(before, pos, pos, Hunks(before, after, sorted)) == Some(after[pos..])
    decreases |sorted|
  {
    if sorted == [] {
      assert before[pos..] == after[pos..];
    } else {
      var n := RunLength(sorted);
      GroupWindow(before, sorted, pos);
      RestUnchanged(before, after, sorted, pos);
      HunksApply(before, after, sorted[n..], End(before, sorted[..n]));
      FirstHunkApplies(before, after, sorted, pos);
    }
  }

  /** The first group's hunk in front of the rest of the patch. */
  lemma FirstHunkApplies(before: seq<string>, after: seq<string>, sorted: seq<nat>, pos: nat)
    requires sorted != [] && Ascending(sorted) && InRange(before, sorted) && pos <= |before|
    requires OnlyChanged(before, after, sorted, pos) && Beyond(sorted, pos)
    requires var n := RunLength(sorted);
             var end := End(before, sorted[..n]);
             end <= |before| && Ascending(sorted[n..]) && InRange(before, sorted[n..])
             && Apply(before, end, end, Hunks(before, after, sorted[n..])) == Some(after[end..])
    ensures Apply(before, pos, pos, Hunks(before, after, sorted)) == Some(after[pos..])
  {
    var n := RunLength(sorted);
    var group, rest := sorted[..n], sorted[n..];
    var start, end := Start(group), End(before, group);
    GroupWindow(before, sorted, pos);
    GroupBodyApplies(before, after, sorted, pos);
    HunksCons(before, after, sorted);
    ApplyCons(before, pos, HunkOf(before, after, group), Hunks(before, after, rest), after[start - 1..end], end, after[end..]);
    SameSlice(before, after, pos, start - 1);
    ThreeSlices(after, pos, start - 1, end);
  }

  lemma SameSlice(before: seq<string>, after: seq<string>, lo: nat, hi: nat)
    requires lo <= hi <= |before| == |after| && forall i :: lo <= i < hi ==> before[i] == after[i]
    ensures before[lo..hi] == after[lo..hi]
  {
  }

  lemma ThreeSlices(s: seq<string>, a: nat, b: nat, c: nat)
    requires a <= b <= c <= |s|
    ensures s[a..b] + s[b..c] + s[c..] == s[a..]
  {
  }

  /** Where the first group lies among the changed lines. */
  lemma GroupSpan(s: seq<nat>)
    requires s != [] && Ascending(s)
    ensures var n := RunLength(s);
            && (forall i :: 0 <= i < n ==> s[0] <= s[i] <= s[n - 1])
            && (forall i :: n <= i < |s| ==> s[i] > s[n - 1] + 2 * CONTEXT)
  {
    RunEnds(s);
  }

  lemma AscendingSlices(s: seq<nat>, n: nat)
    requires Ascending(s) && n <= |s|
    ensures Ascending(s[..n]) && Ascending(s[n..])
  {
    assert forall i :: 0 <= i < |s| - n ==> s[n..][i] == s[n + i];
  }

  lemma GroupWindow(before: seq<string>, sorted: seq<nat>, pos: nat)
    requires sorted != [] && Ascending(sorted) && InRange(before, sorted) && pos <= |before| && Beyond(sorted, pos)
    ensures var n := RunLength(sorted);
            var group, rest := sorted[..n], sorted[n..];
            && pos < Start(group) <= sorted[0] <= sorted[n - 1] <= End(before, group) <= |before|
            && Ascending(group) && Ascending(rest) && InRange(before, group) && InRange(before, rest)
            && Beyond(rest, End(before, group))
  {
    GroupSpan(sorted);
    var n := RunLength(sorted);
    AscendingSlices(sorted, n);
    var rest := sorted[n..];
    assert forall i :: 0 <= i < |rest| ==> rest[i] == sorted[n + i];
    assert sorted[..n][0] == sorted[0] && sorted[..n][n - 1] == sorted[n - 1];
  }

  /** A line before the end of the first group's window is changed only if the group lists it. */
  lemma WindowListed(sorted: seq<nat>, x: nat)
    requires sorted != [] && Ascending(sorted)
    requires x in sorted && x <= sorted[RunLength(sorted) - 1] + CONTEXT
    ensures x in sorted[..RunLength(sorted)] && sorted[0] <= x
  {
    var n := RunLength(sorted);
    GroupSpan(sorted);
    var i :| 0 <= i < |sorted| && sorted[i] == x;
    assert sorted[..n][i] == x;
  }

  lemma WindowListedForall(sorted: seq<nat>)
    requires sorted != [] && Ascending(sorted)
    ensures forall x :: x in sorted ==> sorted[0] <= x
  {
  }

  lemma GroupBodyApplies(before: seq<string>, after: seq<string>, sorted: seq<nat>, pos: nat)
    requires sorted != [] && Ascending(sorted) && InRange(before, sorted) && pos <= |before|
    requires OnlyChanged(before, after, sorted, pos) && Beyond(sorted, pos)
    ensures var group := sorted[..RunLength(sorted)];
            var start, end := Start(group), End(before, group);
            && 1 <= start <= end <= |before|
            && (forall i :: pos <= i < start - 1 ==> before[i] == after[i])
            && ApplyBody(before, start - 1, Body(before, after, group, start, end)) == Some((after[start - 1..end], end))
  {
    var group := sorted[..RunLength(sorted)];
    var start, end := Start(group), End(before, group);
    GroupWindow(before, sorted, pos);
    forall i | start <= i <= end && i !in group ensures before[i - 1] == after[i - 1] {
      if i in sorted {
        WindowListed(sorted, i);
      }
      assert (i - 1) + 1 !in sorted;
    }
    forall i | pos <= i < start - 1 ensures before[i] == after[i] {
      WindowListedForall(sorted);
    }
    BodyApplies(before, after, group, start, end);
  }

  lemma RestUnchanged(before: seq<string>, after: seq<string>, sorted: seq<nat>, pos: nat)
    requires sorted != [] && Ascending(sorted) && InRange(before, sorted) && pos <= |before|
    requires OnlyChanged(before, after, sorted, pos) && Beyond(sorted, pos)
    ensures var n := RunLength(sorted); OnlyChanged(before, after, sorted[n..], End(before, sorted[..n]))
  {
    var n := RunLength(sorted);
    GroupWindow(before, sorted, pos);
    GroupSpan(sorted);
    var end := End(before, sorted[..n]);
    forall i | end <= i < |before| && (i + 1) !in sorted[n..] ensures before[i] == after[i] {
      assert sorted == sorted[..n] + sorted[n..];
      assert forall x :: x in sorted[..n] ==> x <= sorted[n - 1];
      assert i + 1 !in sorted;
    }
  }

  /**
   * The diff is a correct patch: applying its hunks to the old lines gives the new lines, whenever
   * the two sides differ only on the changed lines.
   */
  lemma DiffIsPatch(before: seq<string>, after: seq<string>, changed: seq<nat>)
    requires InRange(before, changed) && OnlyChanged(before, after, changed, 0)
    ensures Apply(before, 0, 0, UnifiedDiff(before, after, changed)) == Some(after)
  {
    var sorted := Sort(changed);
    SortAscends(changed);
    SortInRange(before, changed);
    HunksApply(before, after, sorted, 0);
    assert after[0..] == after;
  }

  // ---- the printing loops -------------------------------------------------------------------------------

  method PrintHunk(before: seq<string>, after: seq<string>, group: seq<nat>) returns (h: Hunk)
    requires group != [] && Ascending(group) && InRange(before, group) && |before| == |after|
    ensures h == HunkOf(before, after, group)
  {
    assert group[0] <= group[|group| - 1];
    var start, end := Start(group), End(before, group);
    var out: seq<string> := [];
    var ln := start;
    while ln <= end
      invariant start <= ln <= end + 1
      invariant out + Body(before, after, group, ln, end) == Body(before, after, group, start, end)
    {
      var lines := if ln in group then ["-" + before[ln - 1], "+" + after[ln - 1]] else [" " + before[ln - 1]];
      AppendAssoc(out, lines, Body(before, after, group, ln + 1, end));
      out := out + lines;
      ln := ln + 1;
    }
    h := Hunk(start, end - start + 1, start, end - start + 1, out);
  }

  lemma AppendAssoc<T>(a: seq<T>, b: seq<T>, c: seq<T>)
    ensures a + (b + c) == (a + b) + c
  {
  }

  /** A run of touching lines. */
  ghost predicate IsRun(s: seq<nat>) {
    forall i :: 0 <= i < |s| - 1 ==> s[i + 1] - s[i] <= 2 * CONTEXT
  }

  lemma {:induction false} RunSplits(run: seq<nat>, rest: seq<nat>)
    requires run != [] && IsRun(run)
    requires rest != [] ==> rest[0] - run[|run| - 1] > 2 * CONTEXT
    ensures Groups(run + rest) == [run] + Groups(rest)
  {
    RunLengthOf(run, rest);
    assert (run + rest)[..|run|] == run && (run + rest)[|run|..] == rest;
  }

  lemma {:induction false} RunLengthOf(run: seq<nat>, rest: seq<nat>)
    requires run != [] && IsRun(run)
    requires rest != [] ==> rest[0] - run[|run| - 1] > 2 * CONTEXT
    ensures RunLength(run + rest) == |run|
  {
    var s := run + rest;
    if |run| > 1 {
      assert s[1..] == run[1..] + rest;
      RunLengthOf(run[1..], rest);
    } else {
      assert |s| > 1 ==> s[1] == rest[0];
    }
  }

  /** Group ascending lines whose context windows touch. */
  method GroupLines(sorted: seq<nat>) returns (groups: seq<seq<nat>>)
    ensures groups == Groups(sorted)
  {
    if |sorted| == 0 {
      return [];
    }
    var closed: seq<seq<nat>>, last: seq<nat> := [], [sorted[0]];
    assert [sorted[0]] + sorted[1..] == sorted;
    for i := 1 to |sorted|
      invariant last != [] && IsRun(last)
      invariant Groups(sorted) == closed + Groups(last + sorted[i..])
    {
      var line := sorted[i];
      assert sorted[i..] == [line] + sorted[i + 1..];
      if line - last[|last| - 1] <= 2 * CONTEXT {
        AppendAssoc(last, [line], sorted[i + 1..]);
        last := last + [line];
      } else {
        RunSplits(last, sorted[i..]);
        AppendAssoc(closed, [last], Groups(sorted[i..]));
        closed, last := closed + [last], [line];
      }
    }
    RunSplits(last, []);
    assert last + sorted[|sorted|..] == last + [];
    groups := closed + [last];
    assert [last] + Groups([]) == [last];
  }

  lemma {:induction false} GroupsAreSlices(before: seq<string>, sorted: seq<nat>)
    requires Ascending(sorted) && InRange(before, sorted)
    ensures forall g :: g in Groups(sorted) ==> g != [] && Ascending(g) && InRange(before, g)
    decreases |sorted|
  {
    if sorted != [] {
      var n := RunLength(sorted);
      GroupsAreSlices(before, sorted[n..]);
    }
  }

  lemma {:induction false} HunksOfGroups(before: seq<string>, after: seq<string>, sorted: seq<nat>)
    requires Ascending(sorted) && InRange(before, sorted) && |before| == |after|
    ensures var gs, hs := Groups(sorted), Hunks(before, after, sorted);
            |gs| == |hs| && forall i :: 0 <= i < |gs| ==>
              gs[i] != [] && Ascending(gs[i]) && InRange(before, gs[i]) && hs[i] == HunkOf(before, after, gs[i])
    decreases |sorted|
  {
    if sorted != [] {
      var n := RunLength(sorted);
      HunksOfGroups(before, after, sorted[n..]);
      GroupsAreSlices(before, sorted);
      HunksCons(before, after, sorted);
    }
  }

  lemma HunksCons(before: seq<string>, after: seq<string>, sorted: seq<nat>)
    requires sorted != [] && Ascending(sorted) && InRange(before, sorted) && |before| == |after|
    ensures var n := RunLength(sorted);
            && Groups(sorted) == [sorted[..n]] + Groups(sorted[n..])
            && Hunks(before, after, sorted) == [HunkOf(before, after, sorted[..n])] + Hunks(before, after, sorted[n..])
  {
  }

  method PrintDiff(before: seq<string>, after: seq<string>, changed: seq<nat>) returns (hunks: seq<Hunk>)
    requires InRange(before, changed) && |before| == |after|
    ensures hunks == UnifiedDiff(before, after, changed)
  {
    if |changed| == 0 {
      return [];
    }
    var sorted := Sort(changed);
    SortAscends(changed);
    SortInRange(before, changed);
    HunksOfGroups(before, after, sorted);
    var groups := GroupLines(sorted);
    hunks := [];
    ghost var all := Hunks(before, after, sorted);
    for i := 0 to |groups|
      invariant hunks == all[..i]
    {
      var h := PrintHunk(before, after, groups[i]);
      hunks := hunks + [h];
    }
  }
}
