/** Locating each job's own `runs-on:` line by indentation. */
module Scanner {
  import opened Text
  import opened Lines

  // ---- what one line looks like -------------------------------------------------------------------

  /** A line terminator `.` does not match. */
  predicate IsTerminator(c: char) {
    c == '\n' || c == '\r' || c == '\U{2028}' || c == '\U{2029}'
  }

  predicate HasTerminator(s: string) {
    exists i :: 0 <= i < |s| && IsTerminator(s[i])
  }

  predicate IsNameChar(c: char) {
    'A' <= c <= 'Z' || 'a' <= c <= 'z' || '0' <= c <= '9' || c == '_' || c == '.' || c == '-'
  }

  /** Length of the run of name characters at the start of `s`. */
  function NameRun(s: string): (n: nat)
    ensures n <= |s|
  {
    if s == "" || !IsNameChar(s[0]) then 0 else 1 + NameRun(s[1..])
  }

  /** Index of the first `q` or (for `"`) backslash, or `|s|`. */
  function QuoteRun(s: string, q: char): (n: nat)
    ensures n <= |s|
  {
    if s == "" || s[0] == q || (q == '"' && s[0] == '\\') then 0 else 1 + QuoteRun(s[1..], q)
  }

  /** The key name a trimmed line starts with, and how many characters its spelling takes. */
  function KeySpelling(s: string): (r: Option<(string, nat)>)
    ensures r.Some? ==> r.value.1 <= |s|
  {
    if s != "" && (s[0] == '"' || s[0] == '\'') then
      var n := QuoteRun(s[1..], s[0]);
      if n + 1 < |s| && s[n + 1] == s[0] then Some((s[1..n + 1], n + 2)) else None
    else
      var n := NameRun(s);
      if n > 0 then Some((s[..n], n)) else None
  }

  /** `KEY_RE`: indent, key name, and what follows the colon. */
  function ParseKey(line: string): Option<(nat, string, string)> {
    var indent := WsPrefix(line);
    KeyAt(indent, line[indent..])
  }

  /** A key spelled from here, `indent` columns in. */
  function KeyAt(indent: nat, s: string): Option<(nat, string, string)> {
    match KeySpelling(s)
    case None => None
    case Some((name, n)) =>
      if n < |s| && s[n] == ':' then
        var rest := TrimLeft(s[n + 1..]);
        if HasTerminator(rest) then None else Some((indent, name, rest))
      else None
  }

  predicate IsPad(c: char) {
    c == ' ' || c == '\t'
  }

  function SkipPad(s: string): (r: string)
    ensures r != "" ==> !IsPad(r[0])
  {
    if s == "" || !IsPad(s[0]) then s else SkipPad(s[1..])
  }

  predicate IsTail(c: char) {
    IsPad(c) || c == '\r'
  }

  function DropTail(s: string): (r: string)
    ensures r != "" ==> !IsTail(r[|r| - 1])
  {
    if s == "" || !IsTail(s[|s| - 1]) then s else DropTail(s[..|s| - 1])
  }

  const RUNS_ON := "runs-on:"

  /** `RUNS_ON_RE`: the leading white space and the value. */
  function MatchRunsOn(line: string): Option<(string, string)> {
    var indent := WsPrefix(line);
    var s := line[indent..];
    if !StartsWith(s, RUNS_ON) then None
    else
      var value := DropTail(SkipPad(s[|RUNS_ON|..]));
      if HasTerminator(value) then None else Some((line[..indent], value))
  }

  /** `line.replace(/\r$/, '')`. */
  function StripCr(line: string): string {
    if EndsWithChar(line, '\r') then line[..|line| - 1] else line
  }

  datatype LineClass =
    | Blank
    | Other(indent: nat)
    | Key(indent: nat, name: string, bodyless: bool, runsOn: bool)

  function Classify(raw: string): LineClass {
    var line := StripCr(raw);
    var t := Trim(line);
    if t == "" || StartsWith(t, "#") then Blank
    else
      match ParseKey(line)
      case None => Other(WsPrefix(line))
      case Some((indent, name, rest)) =>
        Key(indent, name, Trim(rest) == "" || StartsWith(Trim(rest), "#"), MatchRunsOn(line).Some?)
  }

  function ClassifyAll(lines: seq<string>): (cls: seq<LineClass>)
    ensures |cls| == |lines| && forall i :: 0 <= i < |lines| ==> cls[i] == Classify(lines[i])
  {
    seq(|lines|, i requires 0 <= i < |lines| => Classify(lines[i]))
  }

  // ---- the scan -----------------------------------------------------------------------------------

  /** Scanner state; a job and a body column remember the line they were learned from. */
  datatype Scan = Scan(
    jobs: Option<nat>,
    stopped: bool,
    jobColumn: Option<nat>,
    current: Option<(string, nat)>,
    body: Option<(nat, nat)>,
    found: map<string, nat>)

  const START := Scan(None, false, None, None, None, map[])

  function Step(s: Scan, c: LineClass, i: nat): Scan {
    if s.stopped || c.Blank? then s
    else if s.jobs.None? then
      if c.Key? && c.name == "jobs" && c.indent == 0 then s.(jobs := Some(i)) else s
    else if c.Other? then
      if s.jobColumn.Some? && c.indent <= s.jobColumn.value then s.(current := None, body := None) else s
    else if c.indent == 0 && c.name != "jobs" then s.(stopped := true)
    else
      var column := if s.jobColumn.None? && c.indent > 0 then Some(c.indent) else s.jobColumn;
      var s1 := s.(jobColumn := column);
      if column == Some(c.indent) then
        s1.(body := None, current := if c.bodyless && c.name != "" then Some((c.name, i)) else None)
      else if s.current.None? then s1
      else
        var body := if s.body.None? then Some((c.indent, i)) else s.body;
        var job := s.current.value.0;
        s1.(body := body,
            found := if body.value.0 == c.indent && c.runsOn && job !in s.found then s.found[job := i] else s.found)
  }

  /** The state after the first `n` lines. */
  function ScanTo(cls: seq<LineClass>, n: nat): Scan
    requires n <= |cls|
  {
    if n == 0 then START else Step(ScanTo(cls, n - 1), cls[n - 1], n - 1)
  }

  function FindIn(lines: seq<string>): map<string, nat> {
    ScanTo(ClassifyAll(lines), |lines|).found
  }

  method FindRunsOnLines(text: string) returns (out: map<string, nat>)
    ensures out == FindIn(Bodies(Split(text)))
  {
    var lines, _ := SplitLines(text);
    out := ScanClasses(ClassifyAll(lines));
  }

  /** The scanning loop; line numbers are zero-based here. */
  method ScanClasses(cls: seq<LineClass>) returns (out: map<string, nat>)
    ensures out == ScanTo(cls, |cls|).found
  {
    out := map[];
    var jobsIndent, jobIdIndent: Option<nat>, currentJob: Option<string>, jobBodyIndent: Option<nat> :=
      None, None, None, None;
    ghost var s := START;
    for i := 0 to |cls|
      invariant s == ScanTo(cls, i) && !s.stopped
      invariant out == s.found && jobIdIndent == s.jobColumn
      invariant jobsIndent == if s.jobs.Some? then Some(0) else None
      invariant currentJob == if s.current.Some? then Some(s.current.value.0) else None
      invariant jobBodyIndent == if s.body.Some? then Some(s.body.value.0) else None
    {
      var c := cls[i];
      s := Step(s, c, i);
      if c.Blank? {
        continue;
      }
      if jobsIndent == None {
        if c.Key? && c.name == "jobs" && c.indent == 0 {
          jobsIndent := Some(0);
        }
        continue;
      }
      if c.Other? {
        if jobIdIndent != None && c.indent <= jobIdIndent.value {
          currentJob, jobBodyIndent := None, None;
        }
        continue;
      }
      if c.indent <= jobsIndent.value && c.name != "jobs" {
        StoppedStays(cls, i + 1, |cls|);
        break;
      }
      if jobIdIndent == None && c.indent > jobsIndent.value {
        jobIdIndent := Some(c.indent);
      }
      if jobIdIndent == Some(c.indent) {
        jobBodyIndent := None;
        currentJob := if c.bodyless && c.name != "" then Some(c.name) else None;
        continue;
      }
      if currentJob == None {
        continue;
      }
      if jobBodyIndent == None {
        jobBodyIndent := Some(c.indent);
      }
      if c.indent != jobBodyIndent.value {
        continue;
      }
      if c.runsOn && currentJob.value !in out {
        out := out[currentJob.value := i];
      }
    }
  }

  lemma {:induction false} StoppedStays(cls: seq<LineClass>, i: nat, n: nat)
    requires i <= n <= |cls| && ScanTo(cls, i).stopped
    ensures ScanTo(cls, n) == ScanTo(cls, i)
    decreases n
  {
    if i < n {
      StoppedStays(cls, i, n - 1);
    }
  }
}
