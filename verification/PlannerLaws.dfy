/**
 * What a plan guarantees: nothing outside its edits changes, every terminator stays, and its diff is a
 * patch. A rewritten line is still a selector of its own column.
 */
module PlannerLaws {
  import opened Text
  import opened Lines
  import opened Catalog
  import opened LabelTokens
  import opened LabelRoundTrip
  import opened Selector
  import opened SelectorLaws
  import opened RewriteMeaning
  import opened Scanner
  import opened ScannerLaws
  import opened Planner
  import Diff

  // ---- terminators ----------------------------------------------------------------------------------

  ghost predicate NoTerm(s: string) {
    forall i :: 0 <= i < |s| ==> !IsTerminator(s[i])
  }

  lemma {:induction false} JoinNoTerm(parts: seq<string>)
    requires forall i :: 0 <= i < |parts| ==> NoTerm(parts[i])
    ensures NoTerm(Join(parts, ", "))
    decreases |parts|
  {
    if |parts| > 1 {
      JoinNoTerm(parts[1..]);
    }
  }

  lemma SliceNoTerm(s: string, t: string)
    requires NoTerm(s) && IsSlice(t, s)
    ensures NoTerm(t)
  {
  }

  lemma PlainNoTerm(s: string)
    requires PlainShape(s)
    ensures NoTerm(s)
  {
    forall i | 0 <= i < |s| ensures !IsTerminator(s[i]) {
      assert IsPlainChar(s[i]);
    }
  }

  lemma PrefixSlice(t: string, s: string, n: nat)
    requires n <= |s| && IsSlice(t, s[..n])
    ensures IsSlice(t, s)
  {
    var lo, hi :| 0 <= lo <= hi <= n && t == s[..n][lo..hi];
    assert s[..n][lo..hi] == s[lo..hi];
  }

  lemma SuffixSlice(s: string, n: nat)
    requires n <= |s|
    ensures IsSlice(s[n..], s) && (s[n..] != "" ==> s[n..][|s| - n - 1] == s[|s| - 1])
  {
    assert s[n..] == s[n..|s|];
  }

  lemma SplitCommentSlices(raw: string)
    ensures var (value, comment) := SplitComment(raw); IsSlice(value, raw) && IsSlice(comment, raw)
    ensures var comment := SplitComment(raw).1;
            comment != "" ==> raw != "" && comment[|comment| - 1] == raw[|raw| - 1]
  {
    var i := FindHash(Out, true, raw);
    if i == |raw| {
      TrimIsSlice(raw);
      SuffixSlice(raw, |raw|);
    } else {
      var cut := |TrimRight(raw[..i])|;
      TrimIsSlice(raw[..cut]);
      PrefixSlice(Trim(raw[..cut]), raw, cut);
      SuffixSlice(raw, cut);
    }
  }

  lemma TokensNoTerm(raw: string)
    requires NoTerm(raw) && ParseRunsOn(raw).Some?
    ensures forall i :: 0 <= i < |ParseRunsOn(raw).value| ==> NoTerm(ParseRunsOn(raw).value[i].raw)
  {
    SplitCommentSlices(raw);
    var value := SplitComment(raw).0;
    SliceNoTerm(raw, value);
    var inner := Inner(value);
    assert NoTerm(inner);
    ParsedDelivers(raw);
    var ts := ParseRunsOn(raw).value;
    forall i | 0 <= i < |ts| ensures NoTerm(ts[i].raw) {
      SliceNoTerm(inner, ts[i].raw);
    }
  }

  /** A value `RUNS_ON_RE` can capture, starting with a bracket. */
  ghost predicate ListValue(v: string) {
    v != "" && v[0] == '[' && !IsTail(v[|v| - 1]) && NoTerm(v)
  }

  lemma EmitNoTerm(kept: seq<Token>, lca: string)
    requires PlainShape(lca) && forall i :: 0 <= i < |kept| ==> NoTerm(kept[i].raw)
    ensures NoTerm(Emit(kept, lca))
  {
    PlainNoTerm(SELF_HOSTED);
    PlainNoTerm(lca);
    var parts := [SELF_HOSTED] + Raws(kept) + [lca];
    assert forall i :: 1 <= i <= |kept| ==> parts[i] == kept[i - 1].raw;
    JoinNoTerm(parts);
  }

  lemma RewrittenIsListValue(builtin: seq<Flavor>, raw: string, lca: string)
    requires BuiltinLabel(lca) && NoTerm(raw) && (raw != "" ==> !IsTail(raw[|raw| - 1]))
    requires RewriteRunsOnValue(builtin, raw, lca).Rewritten?
    ensures ListValue(RewriteRunsOnValue(builtin, raw, lca).value)
  {
    RewrittenIff(builtin, raw, lca);
    var kept, comment := Kept(ParseRunsOn(raw).value), SplitComment(raw).1;
    TokensNoTerm(raw);
    BuiltinIsPlain(lca);
    forall i | 0 <= i < |kept| ensures NoTerm(kept[i].raw) {
      assert kept[i] in ParseRunsOn(raw).value;
    }
    EmitNoTerm(kept, lca);
    SplitCommentSlices(raw);
    SliceNoTerm(raw, comment);
  }

  // ---- the rewritten line ----------------------------------------------------------------------------

  lemma {:induction false} NameRunOf(name: string, rest: string)
    requires forall i :: 0 <= i < |name| ==> IsNameChar(name[i])
    requires rest != "" ==> !IsNameChar(rest[0])
    ensures NameRun(name + rest) == |name|
  {
    if name == "" {
      assert name + rest == rest;
    } else {
      assert (name + rest)[1..] == name[1..] + rest;
      NameRunOf(name[1..], rest);
    }
  }

  const RUNS_ON_KEY := "runs-on"

  lemma PlainSpelling(name: string, rest: string)
    requires name != "" && forall i :: 0 <= i < |name| ==> IsNameChar(name[i])
    requires rest != "" && !IsNameChar(rest[0])
    ensures KeySpelling(name + rest) == Some((name, |name|))
  {
    var s := name + rest;
    assert s[0] == name[0] && IsNameChar(s[0]);
    NameRunOf(name, rest);
    assert s[..|name|] == name;
  }

  lemma KeyOf(indent: nat, name: string, colon: string, after: string)
    requires name != "" && forall i :: 0 <= i < |name| ==> IsNameChar(name[i])
    requires |colon| == 1 && colon[0] == ':'
    ensures KeyAt(indent, name + (colon + after)) ==
            if HasTerminator(TrimLeft(after)) then None else Some((indent, name, TrimLeft(after)))
  {
    var s := name + (colon + after);
    PlainSpelling(name, colon + after);
    assert s[|name|] == ':' && s[|name| + 1..] == after;
  }

  /** A plain key after white space is read at its column. */
  lemma ParseKeyOf(w: string, name: string, after: string)
    requires AllWs(w) && name != "" && forall i :: 0 <= i < |name| ==> IsNameChar(name[i])
    ensures ParseKey(w + (name + (":" + after))) ==
            if HasTerminator(TrimLeft(after)) then None else Some((|w|, name, TrimLeft(after)))
  {
    var s := name + (":" + after);
    assert s[0] == name[0] && IsNameChar(s[0]);
    TrimLeftUnique(w, s);
    assert (w + s)[|w|..] == s;
    KeyOf(|w|, name, ":", after);
  }

  lemma RunsOnSpelling(w: string, after: string)
    ensures w + RUNS_ON + after == w + (RUNS_ON_KEY + (":" + after))
    ensures forall i :: 0 <= i < |RUNS_ON_KEY| ==> IsNameChar(RUNS_ON_KEY[i])
  {
    assert RUNS_ON == RUNS_ON_KEY + ":";
  }

  /** A line that spells `runs-on:` after white space is the key `runs-on` at that column. */
  lemma RunsOnIsKey(w: string, after: string)
    requires AllWs(w)
    ensures ParseKey(w + RUNS_ON + after) ==
            if HasTerminator(TrimLeft(after)) then None else Some((|w|, RUNS_ON_KEY, TrimLeft(after)))
  {
    RunsOnSpelling(w, after);
    ParseKeyOf(w, RUNS_ON_KEY, after);
  }

  lemma RunsOnIndent(w: string, after: string)
    requires AllWs(w)
    ensures var line := w + RUNS_ON + after; WsPrefix(line) == |w| && line[|w|..] == RUNS_ON + after && line[..|w|] == w
  {
    assert w + RUNS_ON + after == w + (RUNS_ON + after);
    TrimLeftUnique(w, RUNS_ON + after);
  }

  lemma {:induction false} DropTailNone(s: string)
    requires s != "" ==> !IsTail(s[|s| - 1])
    ensures DropTail(s) == s
  {
  }

  lemma SkipOnePad(v: string)
    requires ListValue(v)
    ensures DropTail(SkipPad(" " + v)) == v && !HasTerminator(v) && TrimLeft(" " + v) == v
  {
    assert (" " + v)[1..] == v;
    assert SkipPad(" " + v) == SkipPad(v) == v;
    DropTailNone(v);
    TrimLeftUnique(" ", v);
  }

  lemma AfterPrefix(p: string, s: string)
    ensures StartsWith(p + s, p) && (p + s)[|p|..] == s
  {
  }

  lemma RewrittenLineMatches(w: string, v: string)
    requires AllWs(w) && ListValue(v)
    ensures MatchRunsOn(w + RUNS_ON + (" " + v)) == Some((w, v))
  {
    RunsOnIndent(w, " " + v);
    AfterPrefix(RUNS_ON, " " + v);
    SkipOnePad(v);
  }

  /** The line an edit writes. */
  lemma LineShape(w: string, v: string)
    ensures w + RUNS_ON + " " + v == w + RUNS_ON + (" " + v)
  {
  }

  /** The class of a rewritten line: the selector of its own column. */
  lemma RewrittenLineClass(w: string, v: string)
    requires AllWs(w) && ListValue(v)
    ensures var c := Classify(w + RUNS_ON + " " + v);
            c.Key? && c.indent == |w| && c.name == RUNS_ON_KEY && c.runsOn
  {
    var line := w + RUNS_ON + " " + v;
    LineShape(w, v);
    assert line[|line| - 1] == v[|v| - 1];
    assert StripCr(line) == line;
    RunsOnIsKey(w, " " + v);
    SkipOnePad(v);
    RewrittenLineMatches(w, v);
    RunsOnLineIsNotBlank(line);
  }

  lemma RunsOnLineIsNotBlank(line: string)
    requires MatchRunsOn(line).Some?
    ensures Trim(line) != "" && !StartsWith(Trim(line), "#")
  {
    var n := WsPrefix(line);
    assert line[n..][0] == RUNS_ON[0];
    var lo, hi := TrimMargins(line);
    assert !IsWs(line[n]);
    assert lo <= n < hi;
    assert Trim(line)[0] == line[lo];
    assert lo == n;
  }

  lemma StripCrKeepsIndent(raw: string)
    requires MatchRunsOn(StripCr(raw)).Some?
    ensures WsPrefix(StripCr(raw)) == WsPrefix(raw)
  {
    var line := StripCr(raw);
    var n := WsPrefix(line);
    assert line[n..][0] == RUNS_ON[0];
    assert forall i :: 0 <= i < |line| ==> raw[i] == line[i];
  }

  lemma StartsSplit(s: string, p: string)
    requires StartsWith(s, p)
    ensures s == p + s[|p|..]
  {
  }

  lemma MatchSplitsLine(line: string) returns (after: string)
    requires MatchRunsOn(line).Some?
    ensures line == MatchRunsOn(line).value.0 + RUNS_ON + after
    ensures MatchRunsOn(line).value.0 == line[..WsPrefix(line)] && AllWs(MatchRunsOn(line).value.0)
  {
    var n := WsPrefix(line);
    after := line[n..][|RUNS_ON|..];
    StartsSplit(line[n..], RUNS_ON);
    JoinParts(line, n, RUNS_ON, after);
  }

  lemma JoinParts(line: string, n: nat, p: string, after: string)
    requires n <= |line| && line[n..] == p + after
    ensures line == line[..n] + p + after
  {
    assert line == line[..n] + line[n..];
  }

  /** A line the scanner accepts as a selector is the key `runs-on`, at the column the planner reads. */
  lemma SelectorClass(raw: string)
    requires Classify(raw).Key? && Classify(raw).runsOn && MatchRunsOn(raw).Some?
    ensures Classify(raw).name == RUNS_ON_KEY && Classify(raw).indent == |MatchRunsOn(raw).value.0|
  {
    var line := StripCr(raw);
    StripCrKeepsIndent(raw);
    var after := MatchSplitsLine(line);
    RunsOnIsKey(MatchRunsOn(line).value.0, after);
  }

  // ---- a file the scanner misreads ----------------------------------------------------------------------

  lemma NotTheSelector(name: string)
    requires name != RUNS_ON_KEY && forall i :: 0 <= i < |name| ==> IsNameChar(name[i])
    ensures !StartsWith(name + ":", RUNS_ON)
  {
    var s := name + ":";
    assert RUNS_ON[7] == ':' && RUNS_ON[..7] == RUNS_ON_KEY;
    if |name| > 7 {
      assert s[7] == name[7];
    } else if |name| == 7 {
      assert s[..7] == name;
    }
  }

  lemma KeyLineParts(w: string, name: string, s: string)
    requires AllWs(w) && name != "" && s == name + ":" && forall i :: 0 <= i < |name| ==> IsNameChar(name[i])
    ensures Trim(w + s) == s && WsPrefix(w + s) == |w| && (w + s)[|w|..] == s && StripCr(w + s) == w + s
    ensures IsNameChar(s[0])
  {
    assert s[0] == name[0];
    assert w + s + "" == w + s;
    TrimPadded(w, s, "");
    TrimLeftUnique(w, s);
    assert (w + s)[|w + s| - 1] == ':';
  }

  lemma KeyLineParse(w: string, name: string, s: string)
    requires AllWs(w) && name != "" && s == name + ":" && forall i :: 0 <= i < |name| ==> IsNameChar(name[i])
    ensures ParseKey(w + s) == Some((|w|, name, ""))
  {
    assert s == name + (":" + "");
    assert TrimLeft("") == "";
    ParseKeyOf(w, name, "");
  }

  /** A line of one plain key and nothing after its colon. */
  lemma KeyLineClass(w: string, name: string)
    requires AllWs(w) && name != "" && name != RUNS_ON_KEY && forall i :: 0 <= i < |name| ==> IsNameChar(name[i])
    ensures Classify(w + (name + ":")) == Key(|w|, name, true, false)
  {
    var s := name + ":";
    KeyLineParts(w, name, s);
    KeyLineParse(w, name, s);
    NotTheSelector(name);
    ClassOfParts(w + s, |w|, name, s);
  }

  lemma ClassOfParts(line: string, indent: nat, name: string, s: string)
    requires StripCr(line) == line && Trim(line) == s && s != "" && IsNameChar(s[0])
    requires ParseKey(line) == Some((indent, name, "")) && indent == WsPrefix(line) && line[indent..] == s
    requires !StartsWith(s, RUNS_ON)
    ensures Classify(line) == Key(indent, name, true, false)
  {
    assert Trim("") == "";
  }

  lemma KeyLineIsOneLine(w: string, name: string)
    requires (forall i :: 0 <= i < |w| ==> w[i] == ' ') && forall i :: 0 <= i < |name| ==> IsNameChar(name[i])
    ensures FitsLf(w + (name + ":"))
  {
    var line := w + (name + ":");
    assert forall i :: 0 <= i < |line| ==> line[i] == ' ' || line[i] == ':' || IsNameChar(line[i]);
  }

  ghost predicate FitsLf(line: string) {
    BodyFits(line, "\n")
  }

  function FourLines(a: string, b: string, c: string, d: string): seq<Line> {
    [Line(a, "\n"), Line(b, "\n"), Line(c, "\n"), Line(d, "")]
  }

  lemma SplitFour(a: string, b: string, c: string, d: string)
    requires FitsLf(a) && FitsLf(b) && FitsLf(c) && '\n' !in d
    ensures Bodies(Split(Unsplit(FourLines(a, b, c, d)))) == [a, b, c, d]
  {
    SplitAfterJoin(FourLines(a, b, c, d));
  }

  /** Job `name` at one column, a stray key further left, and a selector beside that. */
  function Misread(w: string, name: string, u: string, odd: string, v: string): string {
    Unsplit(FourLines("jobs:", w + (name + ":"), u + (odd + ":"), u + RUNS_ON + " " + v))
  }

  predicate Spaces(w: string) {
    w != "" && forall i :: 0 <= i < |w| ==> w[i] == ' '
  }

  predicate IsKeyName(name: string) {
    name != "" && name != RUNS_ON_KEY && forall i :: 0 <= i < |name| ==> IsNameChar(name[i])
  }

  lemma KeyLineAt(lines: seq<string>, cls: seq<LineClass>, i: nat, w: string, name: string)
    requires cls == ClassifyAll(lines) && i < |lines| && lines[i] == w + (name + ":") && AllWs(w) && IsKeyName(name)
    ensures cls[i] == Key(|w|, name, true, false)
  {
    KeyLineClass(w, name);
  }

  lemma SelectorLineAt(lines: seq<string>, cls: seq<LineClass>, i: nat, u: string, v: string)
    requires cls == ClassifyAll(lines) && i < |lines| && lines[i] == u + RUNS_ON + " " + v && AllWs(u) && ListValue(v)
    ensures cls[i].Key? && cls[i].indent == |u| && cls[i].runsOn
  {
    RewrittenLineClass(u, v);
  }

  lemma JobsLineAt(lines: seq<string>, cls: seq<LineClass>)
    requires cls == ClassifyAll(lines) && lines != [] && lines[0] == "jobs:"
    ensures cls[0] == Key(0, "jobs", true, false)
  {
    JobsLine();
  }

  lemma JobsLine()
    ensures Classify("jobs:") == Key(0, "jobs", true, false) && FitsLf("jobs:")
  {
    assert "jobs" != RUNS_ON_KEY && "" + ("jobs" + ":") == "jobs:";
    KeyLineClass("", "jobs");
    KeyLineIsOneLine("", "jobs");
  }

  lemma MisreadLines(w: string, name: string, u: string, odd: string, v: string)
    requires Spaces(w) && Spaces(u) && IsKeyName(name) && IsKeyName(odd) && ListValue(v)
    ensures Bodies(Split(Misread(w, name, u, odd, v))) == ["jobs:", w + (name + ":"), u + (odd + ":"), u + RUNS_ON + " " + v]
  {
    JobsLine();
    SelectorLineIsOneLine(u, v);
    KeyLineIsOneLine(w, name);
    KeyLineIsOneLine(u, odd);
    SplitFour("jobs:", w + (name + ":"), u + (odd + ":"), u + RUNS_ON + " " + v);
  }

  lemma SelectorLineIsOneLine(u: string, v: string)
    requires Spaces(u) && ListValue(v)
    ensures '\n' !in u + RUNS_ON + " " + v
  {
    var line := u + RUNS_ON + " " + v;
    assert forall i :: 0 <= i < |RUNS_ON| ==> !IsTerminator(RUNS_ON[i]);
    assert forall i :: 0 <= i < |line| ==> !IsTerminator(line[i]);
  }

  lemma MisreadScan(w: string, name: string, u: string, odd: string, v: string, lines: seq<string>)
    requires Spaces(w) && Spaces(u) && |u| < |w| && IsKeyName(name) && IsKeyName(odd) && ListValue(v)
    requires |lines| == 4 && lines[0] == "jobs:" && lines[1] == w + (name + ":")
    requires lines[2] == u + (odd + ":") && lines[3] == u + RUNS_ON + " " + v
    ensures name in FindIn(lines) && FindIn(lines)[name] == 3 && !NearestAtOrLeft(ClassifyAll(lines), |w|, 1, 3)
  {
    var cls := ClassifyAll(lines);
    JobsLineAt(lines, cls);
    KeyLineAt(lines, cls, 1, w, name);
    KeyLineAt(lines, cls, 2, u, odd);
    SelectorLineAt(lines, cls, 3, u, v);
    ShallowKeyMisattributes(cls, name, odd, |w|, |u|);
  }

  /** The scan of such a file gives job `name` the selector on its last line, which is not in its body. */
  lemma ShallowKeyIsMisread(w: string, name: string, u: string, odd: string, v: string)
    requires Spaces(w) && Spaces(u) && |u| < |w| && IsKeyName(name) && IsKeyName(odd) && ListValue(v)
    ensures var lines := Bodies(Split(Misread(w, name, u, odd, v)));
            && |lines| == 4 && name in FindIn(lines) && FindIn(lines)[name] == 3
            && !NearestAtOrLeft(ClassifyAll(lines), |w|, 1, 3)
  {
    var lines := Bodies(Split(Misread(w, name, u, odd, v)));
    MisreadLines(w, name, u, odd, v);
    MisreadScan(w, name, u, odd, v, lines);
  }

  // ---- edits ------------------------------------------------------------------------------------------

  /** The value part of a found selector and the rewrite that replaced it. */
  ghost predicate EditRewrites(builtin: seq<Flavor>, before: seq<string>, e: Edit, f: nat) {
    && e.line < |before| && e.before == before[e.line] && f < |builtin|
    && MatchRunsOn(e.before).Some?
    && var (w, value) := MatchRunsOn(e.before).value;
       var r := RewriteRunsOnValue(builtin, value, builtin[f].routing);
       r.Rewritten? && e.after == w + RUNS_ON + " " + r.value
  }

  lemma ByNameIndex(catalog: seq<Flavor>, n: string) returns (f: nat)
    requires ByName(catalog, n).Some?
    ensures f < |catalog| && catalog[f] == ByName(catalog, n).value
  {
    var x := ByName(catalog, n).value;
    f :| 0 <= f < |catalog| && catalog[f] == x;
  }

  /** Each decided edit rewrites the selector found for its own target, with that target's label. */
  lemma DecidedEdit(builtin: seq<Flavor>, before: seq<string>, found: map<string, nat>, t: Target) returns (f: nat)
    requires PlanTarget(builtin, before, found, t).Edited?
    ensures var o := PlanTarget(builtin, before, found, t);
            && t.jobId in found && found[t.jobId] == o.line
            && EditRewrites(builtin, before, Edit(t.jobId, o.line, o.before, o.after), f)
            && builtin[f].name == t.flavor
  {
    f := ByNameIndex(builtin, t.flavor);
  }

  lemma {:induction false} EditHasTarget(decide: Target -> Outcome, ts: seq<Target>, i: nat) returns (t: Target)
    requires i < |EditsOf(decide, ts)|
    ensures var e := EditsOf(decide, ts)[i];
            t in ts && decide(t) == Edited(e.line, e.before, e.after) && t.jobId == e.jobId
  {
    var front := ts[..|ts| - 1];
    if i < |EditsOf(decide, front)| {
      t := EditHasTarget(decide, front, i);
    } else {
      t := ts[|ts| - 1];
    }
  }

  lemma {:induction false} TargetHasEdit(decide: Target -> Outcome, ts: seq<Target>, t: Target)
    requires t in ts && decide(t).Edited?
    ensures exists i :: 0 <= i < |EditsOf(decide, ts)| && EditsOf(decide, ts)[i].line == decide(t).line
  {
    var front, last := ts[..|ts| - 1], ts[|ts| - 1];
    if t == last {
      assert EditsOf(decide, ts)[|EditsOf(decide, front)|].line == decide(t).line;
    } else {
      assert ts == front + [last];
      TargetHasEdit(decide, front, t);
      var i :| 0 <= i < |EditsOf(decide, front)| && EditsOf(decide, front)[i].line == decide(t).line;
      assert EditsOf(decide, ts)[i] == EditsOf(decide, front)[i];
    }
  }

  /** After overwriting, a line is what some edit of it wrote, or what it was. */
  lemma {:induction false} OverwriteAt(lines: seq<string>, edits: seq<Edit>, k: nat)
    requires EditsWithin(edits, |lines|) && k < |lines|
    ensures (Overwrite(lines, edits)[k] == lines[k] && forall i :: 0 <= i < |edits| ==> edits[i].line != k)
            || exists i :: 0 <= i < |edits| && edits[i].line == k && Overwrite(lines, edits)[k] == edits[i].after
    decreases |edits|
  {
    if edits != [] {
      var n := |edits| - 1;
      if edits[n].line != k {
        OverwriteAt(lines, edits[..n], k);
        assert forall i :: 0 <= i < n ==> edits[..n][i] == edits[i];
      }
    }
  }

  // ---- the theorems -------------------------------------------------------------------------------------

  /** Nothing outside the edits changes: neither a line nor, below, a terminator. */
  lemma UntouchedLines(builtin: seq<Flavor>, text: string, ts: seq<Target>, k: nat)
    requires k < |Split(text)|
    requires forall i :: 0 <= i < |Plan(builtin, text, ts).edits| ==> Plan(builtin, text, ts).edits[i].line != k
    ensures EditsWithin(Plan(builtin, text, ts).edits, |Split(text)|)
    ensures Overwrite(Bodies(Split(text)), Plan(builtin, text, ts).edits)[k] == Split(text)[k].body
  {
    var before := Bodies(Split(text));
    var decide := Decider(builtin, before, FindIn(before));
    DeciderLands(builtin, before, FindIn(before));
    EditsLand(decide, ts, |before|);
    OverwriteAt(before, EditsOf(decide, ts), k);
  }

  lemma MatchedValue(line: string)
    requires MatchRunsOn(line).Some?
    ensures var (w, value) := MatchRunsOn(line).value;
            && AllWs(w) && NoTerm(value) && (value != "" ==> !IsTail(value[|value| - 1]))
    ensures '\n' !in line ==> '\n' !in MatchRunsOn(line).value.0
  {
    var w := MatchRunsOn(line).value.0;
    assert forall i :: 0 <= i < |w| ==> w[i] == line[i] && line[i] in line;
  }

  /** A rewritten line can stand where the old one stood. */
  lemma EditFits(builtin: seq<Flavor>, before: seq<string>, e: Edit, f: nat, ending: string)
    requires CatalogOk(builtin) && EditRewrites(builtin, before, e, f) && '\n' !in e.before
    ensures BodyFits(e.after, ending)
    ensures var (w, value) := MatchRunsOn(e.before).value;
            ListValue(RewriteRunsOnValue(builtin, value, builtin[f].routing).value)
  {
    var (w, value) := MatchRunsOn(e.before).value;
    MatchedValue(e.before);
    RewrittenIsListValue(builtin, value, builtin[f].routing);
    var v := RewriteRunsOnValue(builtin, value, builtin[f].routing).value;
    KeyLineFits(w, v, ending);
  }

  lemma KeyLineFits(w: string, v: string, ending: string)
    requires '\n' !in w && ListValue(v)
    ensures BodyFits(w + RUNS_ON + " " + v, ending)
  {
    var key := RUNS_ON + " ";
    assert w + RUNS_ON + " " == w + key;
    LineFeedFree(w, key, v, ending);
  }

  lemma LineFeedFree(w: string, key: string, v: string, ending: string)
    requires '\n' !in w && '\n' !in key && ListValue(v)
    ensures BodyFits(w + key + v, ending)
  {
    var line := w + key + v;
    assert '\n' !in v;
    assert line[|line| - 1] == v[|v| - 1];
  }

  /** The plan seen line by line: the new lines, and where each differs from the old. */
  ghost predicate PlanView(builtin: seq<Flavor>, text: string, ts: seq<Target>, after: seq<string>) {
    var before, edits := Bodies(Split(text)), Plan(builtin, text, ts).edits;
    && |after| == |before|
    && (forall k :: 0 <= k < |before| ==>
          (after[k] == before[k] && forall i :: 0 <= i < |edits| ==> edits[i].line != k) || EditedTo(builtin, before, edits, k, after[k]))
  }

  ghost predicate EditedTo(builtin: seq<Flavor>, before: seq<string>, edits: seq<Edit>, k: nat, line: string) {
    exists i, f: nat :: 0 <= i < |edits| && edits[i].line == k && edits[i].after == line && EditRewrites(builtin, before, edits[i], f)
                        && edits[i].jobId in FindIn(before) && FindIn(before)[edits[i].jobId] == k
  }

  lemma PlanViewHolds(builtin: seq<Flavor>, text: string, ts: seq<Target>) returns (after: seq<string>)
    ensures PlanView(builtin, text, ts, after)
    ensures EditsWithin(Plan(builtin, text, ts).edits, |Split(text)|)
    ensures after == Overwrite(Bodies(Split(text)), Plan(builtin, text, ts).edits)
    ensures Plan(builtin, text, ts).edits != [] ==>
              Plan(builtin, text, ts).content == Some(Unsplit(Zip(after, Endings(Split(text)))))
  {
    var before := Bodies(Split(text));
    var found := FindIn(before);
    var decide := Decider(builtin, before, found);
    DeciderLands(builtin, before, found);
    EditsLand(decide, ts, |before|);
    var edits := EditsOf(decide, ts);
    after := Overwrite(before, edits);
    forall k | 0 <= k < |before|
      ensures (after[k] == before[k] && forall i :: 0 <= i < |edits| ==> edits[i].line != k) || EditedTo(builtin, before, edits, k, after[k])
    {
      OverwriteAt(before, edits, k);
      if !(after[k] == before[k] && forall i :: 0 <= i < |edits| ==> edits[i].line != k) {
        var i :| 0 <= i < |edits| && edits[i].line == k && after[k] == edits[i].after;
        var t := EditHasTarget(decide, ts, i);
        var f := DecidedEdit(builtin, before, found, t);
      }
    }
  }

  /** The planned content splits into the new lines with the old terminators. */
  lemma ContentKeepsTerminators(builtin: seq<Flavor>, text: string, ts: seq<Target>)
    requires CatalogOk(builtin) && Plan(builtin, text, ts).edits != []
    ensures EditsWithin(Plan(builtin, text, ts).edits, |Split(text)|)
    ensures Plan(builtin, text, ts).content.Some?
    ensures Split(Plan(builtin, text, ts).content.value) ==
            Zip(Overwrite(Bodies(Split(text)), Plan(builtin, text, ts).edits), Endings(Split(text)))
  {
    var ls := Split(text);
    var before, edits := Bodies(ls), Plan(builtin, text, ts).edits;
    var after := PlanViewHolds(builtin, text, ts);
    SplitIsWellSplit(text);
    forall k | 0 <= k < |ls| ensures after[k] == ls[k].body || BodyFits(after[k], ls[k].ending) {
      if after[k] != before[k] {
        var i, f: nat :| 0 <= i < |edits| && edits[i].line == k && edits[i].after == after[k] && EditRewrites(builtin, before, edits[i], f);
        EditFits(builtin, before, edits[i], f, ls[k].ending);
      }
    }
    ReplaceKeepsSplit(ls, after);
  }

  /** The plan's diff turns the old lines into the new ones. */
  lemma PlanDiffIsPatch(builtin: seq<Flavor>, text: string, ts: seq<Target>)
    ensures EditsWithin(Plan(builtin, text, ts).edits, |Split(text)|)
    ensures var before := Bodies(Split(text));
            Diff.Apply(before, 0, 0, Plan(builtin, text, ts).diff) == Some(Overwrite(before, Plan(builtin, text, ts).edits))
  {
    var before, edits := Bodies(Split(text)), Plan(builtin, text, ts).edits;
    var _ := PlanViewHolds(builtin, text, ts);
    OverwriteOnlyChanges(before, edits);
    Diff.DiffIsPatch(before, Overwrite(before, edits), ChangedLines(edits));
  }

  lemma NotListed(edits: seq<Edit>, k: nat)
    requires (k + 1) !in ChangedLines(edits)
    ensures forall i :: 0 <= i < |edits| ==> edits[i].line != k
  {
    var changed := ChangedLines(edits);
    forall i | 0 <= i < |edits| ensures edits[i].line != k {
      assert changed[i] in changed;
    }
  }

  lemma OverwriteOnlyChanges(before: seq<string>, edits: seq<Edit>)
    requires EditsWithin(edits, |before|)
    ensures Diff.OnlyChanged(before, Overwrite(before, edits), ChangedLines(edits), 0)
  {
    forall k | 0 <= k < |before| && (k + 1) !in ChangedLines(edits)
      ensures before[k] == Overwrite(before, edits)[k]
    {
      NotListed(edits, k);
      OverwriteAt(before, edits, k);
    }
  }
}
