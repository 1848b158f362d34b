/** Planning the rewrite of one workflow file. */
module Planner {
  import opened Text
  import opened Lines
  import opened Catalog
  import opened LabelRoundTrip
  import opened Selector
  import opened Scanner
  import Diff

  /** A job the caller wants rewritten, with its flavor, or the reason its route forbids it. */
  datatype Target = Target(jobId: string, flavor: string, skip: Option<string>)

  datatype SkipReason =
    | NoRunsOnLine
    | UnexpectedShape
    | AlreadyRouted
    | RouteForbids(reason: string)
    | UnknownFlavor(flavor: string)
    | ValueRefused(refusal: Refusal)
    | NothingToDo

  /** Line numbers are zero-based here. */
  datatype Edit = Edit(jobId: string, line: nat, before: string, after: string)

  datatype Skip = Skip(jobId: string, reason: SkipReason)

  datatype FileRewrite = FileRewrite(
    content: Option<string>, edits: seq<Edit>, skipped: seq<Skip>, diff: seq<Diff.Hunk>)

  /** The built-in label of a flavor. */
  function LabelForFlavor(builtin: seq<Flavor>, flavor: string): Option<string> {
    match ByName(builtin, flavor)
    case None => None
    case Some(f) => Some(f.routing)
  }

  datatype Outcome = Edited(line: nat, before: string, after: string) | Skipped(reason: SkipReason)

  /** What one target comes to, decided from its own line alone. */
  function PlanTarget(builtin: seq<Flavor>, before: seq<string>, found: map<string, nat>, t: Target): Outcome {
    if t.jobId !in found || found[t.jobId] >= |before| then Skipped(NoRunsOnLine)
    else
      var line := found[t.jobId];
      var original := before[line];
      match MatchRunsOn(original)
      case None => Skipped(UnexpectedShape)
      case Some((indent, value)) =>
        var current := ParseRunsOn(value);
        if current.Some? && AlreadyTargetsLca(builtin, LowerAll(Values(current.value))) then Skipped(AlreadyRouted)
        else if t.skip.Some? && t.skip.value != "" then Skipped(RouteForbids(t.skip.value))
        else
          match LabelForFlavor(builtin, t.flavor)
          case None => Skipped(UnknownFlavor(t.flavor))
          case Some(lca) =>
            match RewriteRunsOnValue(builtin, value, lca)
            case RefusedRewrite(reason) => Skipped(ValueRefused(reason))
            case Rewritten(v) =>
              var next := indent + RUNS_ON + " " + v;
              if next == original then Skipped(NothingToDo) else Edited(line, original, next)
  }

  /** `PlanTarget` for one file. */
  function Decider(builtin: seq<Flavor>, before: seq<string>, found: map<string, nat>): Target -> Outcome {
    t => PlanTarget(builtin, before, found, t)
  }

  function EditOf(t: Target, o: Outcome): seq<Edit> {
    match o
    case Edited(line, before, after) => [Edit(t.jobId, line, before, after)]
    case Skipped(_) => []
  }

  function SkipOf(t: Target, o: Outcome): seq<Skip> {
    match o
    case Edited(_, _, _) => []
    case Skipped(reason) => [Skip(t.jobId, reason)]
  }

  function EditsOf(decide: Target -> Outcome, ts: seq<Target>): seq<Edit> {
    if ts == [] then [] else EditsOf(decide, ts[..|ts| - 1]) + EditOf(ts[|ts| - 1], decide(ts[|ts| - 1]))
  }

  function SkipsOf(decide: Target -> Outcome, ts: seq<Target>): seq<Skip> {
    if ts == [] then [] else SkipsOf(decide, ts[..|ts| - 1]) + SkipOf(ts[|ts| - 1], decide(ts[|ts| - 1]))
  }

  ghost predicate EditsWithin(edits: seq<Edit>, n: nat) {
    forall i :: 0 <= i < |edits| ==> edits[i].line < n
  }

  /** `lines` with the edits written over it in order. */
  function Overwrite(lines: seq<string>, edits: seq<Edit>): (r: seq<string>)
    requires EditsWithin(edits, |lines|)
    ensures |r| == |lines|
    decreases |edits|
  {
    if edits == [] then lines
    else
      var e := edits[|edits| - 1];
      Overwrite(lines, edits[..|edits| - 1])[e.line := e.after]
  }

  function ChangedLines(edits: seq<Edit>): (r: seq<nat>)
    ensures |r| == |edits| && forall i :: 0 <= i < |edits| ==> r[i] == edits[i].line + 1
  {
    seq(|edits|, i requires 0 <= i < |edits| => edits[i].line + 1)
  }

  /** Every decided edit lands inside the file. */
  ghost predicate Lands(decide: Target -> Outcome, n: nat) {
    forall t :: decide(t).Edited? ==> decide(t).line < n
  }

  lemma DeciderLands(builtin: seq<Flavor>, before: seq<string>, found: map<string, nat>)
    ensures Lands(Decider(builtin, before, found), |before|)
  {
  }

  lemma {:induction false} EditsLand(decide: Target -> Outcome, ts: seq<Target>, n: nat)
    requires Lands(decide, n)
    ensures EditsWithin(EditsOf(decide, ts), n)
  {
    if ts != [] {
      EditsLand(decide, ts[..|ts| - 1], n);
    }
  }

  function Assemble(before: seq<string>, endings: seq<string>, edits: seq<Edit>, skipped: seq<Skip>): FileRewrite
    requires |before| == |endings| && EditsWithin(edits, |before|)
  {
    var after := Overwrite(before, edits);
    FileRewrite(
      if edits == [] then None else Some(Unsplit(Zip(after, endings))),
      edits, skipped, Diff.UnifiedDiff(before, after, ChangedLines(edits)))
  }

  function PlanLines(builtin: seq<Flavor>, before: seq<string>, endings: seq<string>, ts: seq<Target>): FileRewrite
    requires |before| == |endings|
  {
    var decide := Decider(builtin, before, FindIn(before));
    DeciderLands(builtin, before, FindIn(before));
    EditsLand(decide, ts, |before|);
    Assemble(before, endings, EditsOf(decide, ts), SkipsOf(decide, ts))
  }

  function Plan(builtin: seq<Flavor>, text: string, ts: seq<Target>): FileRewrite {
    PlanLines(builtin, Bodies(Split(text)), Endings(Split(text)), ts)
  }

  /** The planning loop: every target is decided on the original lines, edits land in the copy. */
  method DecideAll(decide: Target -> Outcome, before: seq<string>, targets: seq<Target>)
    returns (after: seq<string>, edits: seq<Edit>, skipped: seq<Skip>)
    requires Lands(decide, |before|)
    ensures edits == EditsOf(decide, targets) && skipped == SkipsOf(decide, targets)
    ensures EditsWithin(edits, |before|) && after == Overwrite(before, edits)
  {
    var copy := new string[|before|](i requires 0 <= i < |before| => before[i]);
    edits, skipped := [], [];
    assert copy[..] == before;
    for i := 0 to |targets|
      invariant edits == EditsOf(decide, targets[..i]) && skipped == SkipsOf(decide, targets[..i])
      invariant EditsWithin(edits, |before|) && copy[..] == Overwrite(before, edits)
    {
      var t := targets[i];
      assert targets[..i + 1][..i] == targets[..i];
      match decide(t) {
        case Edited(line, original, next) =>
          var e := Edit(t.jobId, line, original, next);
          assert (edits + [e])[..|edits|] == edits;
          copy[line] := next;
          edits := edits + [e];
        case Skipped(reason) =>
          skipped := skipped + [Skip(t.jobId, reason)];
      }
    }
    assert targets[..|targets|] == targets;
    after := copy[..];
  }

  method PlanFileRewrite(builtin: seq<Flavor>, text: string, targets: seq<Target>) returns (r: FileRewrite)
    ensures r == Plan(builtin, text, targets)
  {
    var before, endings := SplitLines(text);
    var found := FindRunsOnLines(text);
    DeciderLands(builtin, before, found);
    var after, edits, skipped := DecideAll(Decider(builtin, before, found), before, targets);
    var diff := Diff.PrintDiff(before, after, ChangedLines(edits));
    var content: Option<string> := None;
    if edits != [] {
      var joined := JoinLines(after, endings);
      content := Some(joined);
    }
    r := FileRewrite(content, edits, skipped, diff);
  }
}
