/** Planning the planned content again, and what each planned edit does for its job. */
module PlanTwice {
  import opened Text
  import opened Lines
  import opened Adopt
  import opened Catalog
  import opened Flavors
  import opened LabelRoundTrip
  import opened Selector
  import opened RewriteMeaning
  import opened RewriteRouting
  import opened Scanner
  import opened ScannerLaws
  import opened Planner
  import opened PlannerLaws

  /** The values an edited line was rewritten from and to. */
  lemma EditedLine(builtin: seq<Flavor>, before: seq<string>, e: Edit, f: nat) returns (w: string, value: string, v: string)
    requires CatalogOk(builtin) && EditRewrites(builtin, before, e, f)
    ensures MatchRunsOn(before[e.line]) == Some((w, value)) && AllWs(w)
    ensures RewriteRunsOnValue(builtin, value, builtin[f].routing) == Rewritten(v) && ListValue(v)
    ensures e.after == w + RUNS_ON + " " + v && MatchRunsOn(e.after) == Some((w, v))
  {
    w, value := MatchRunsOn(e.before).value.0, MatchRunsOn(e.before).value.1;
    MatchedValue(e.before);
    RewrittenIsListValue(builtin, value, builtin[f].routing);
    v := RewriteRunsOnValue(builtin, value, builtin[f].routing).value;
    LineShape(w, v);
    RewrittenLineMatches(w, v);
  }

  lemma EditedClass(builtin: seq<Flavor>, before: seq<string>, e: Edit, f: nat)
    requires CatalogOk(builtin) && EditRewrites(builtin, before, e, f)
    requires Classify(e.before).Key? && Classify(e.before).runsOn
    ensures SameSelector(Classify(e.before), Classify(e.after))
  {
    var w, value, v := EditedLine(builtin, before, e, f);
    SelectorClass(e.before);
    RewrittenLineClass(w, v);
  }

  /** An edited line was, and still is, a found selector. */
  lemma EditedToSelector(builtin: seq<Flavor>, before: seq<string>, edits: seq<Edit>, k: nat, line: string)
    requires CatalogOk(builtin) && k < |before| && EditedTo(builtin, before, edits, k, line)
    ensures SameSelector(Classify(before[k]), Classify(line))
    ensures exists job :: job in FindIn(before) && FindIn(before)[job] == k
  {
    var i, f: nat :| 0 <= i < |edits| && edits[i].line == k && edits[i].after == line
                     && EditRewrites(builtin, before, edits[i], f)
                     && edits[i].jobId in FindIn(before) && FindIn(before)[edits[i].jobId] == k;
    FoundLineIsNotAnId(ClassifyAll(before), edits[i].jobId);
    EditedClass(builtin, before, edits[i], f);
  }

  lemma PlanEditsSelectors(builtin: seq<Flavor>, text: string, ts: seq<Target>, after: seq<string>)
    requires CatalogOk(builtin) && PlanView(builtin, text, ts, after)
    ensures EditsSelectors(ClassifyAll(Bodies(Split(text))), ClassifyAll(after))
  {
    var before, edits := Bodies(Split(text)), Plan(builtin, text, ts).edits;
    var cls, cls' := ClassifyAll(before), ClassifyAll(after);
    forall k | 0 <= k < |cls|
      ensures cls[k] == cls'[k] ||
              (SameSelector(cls[k], cls'[k]) && exists job :: job in FindIn(before) && FindIn(before)[job] == k)
    {
      if before[k] != after[k] {
        EditedToSelector(builtin, before, edits, k, after[k]);
      }
    }
  }

  /** The second pass finds the same selector lines. */
  lemma SameFound(builtin: seq<Flavor>, text: string, ts: seq<Target>, after: seq<string>)
    requires CatalogOk(builtin) && PlanView(builtin, text, ts, after)
    ensures FindIn(after) == FindIn(Bodies(Split(text)))
  {
    PlanEditsSelectors(builtin, text, ts, after);
    SameScan(ClassifyAll(Bodies(Split(text))), ClassifyAll(after), |after|);
  }

  lemma EditedLineIsRefused(builtin: seq<Flavor>, before: seq<string>, e: Edit, f: nat, after: seq<string>, found: map<string, nat>, t: Target)
    requires CatalogOk(builtin) && EditRewrites(builtin, before, e, f)
    requires t.jobId in found && found[t.jobId] == e.line < |after| && after[e.line] == e.after
    ensures PlanTarget(builtin, after, found, t).Skipped?
  {
    var w, value, v := EditedLine(builtin, before, e, f);
    if LabelForFlavor(builtin, t.flavor).Some? {
      RewriteAgainIsRefused(builtin, f, value, LabelForFlavor(builtin, t.flavor).value);
    }
  }

  lemma SameLineSameOutcome(builtin: seq<Flavor>, before: seq<string>, after: seq<string>, found: map<string, nat>, t: Target)
    requires |before| == |after| && (t.jobId in found && found[t.jobId] < |before| ==> before[found[t.jobId]] == after[found[t.jobId]])
    ensures PlanTarget(builtin, before, found, t) == PlanTarget(builtin, after, found, t)
  {
  }

  /** A target whose line no edit touches was skipped. */
  lemma UneditedWasSkipped(builtin: seq<Flavor>, before: seq<string>, found: map<string, nat>, ts: seq<Target>, t: Target)
    requires t in ts && t.jobId in found
    requires var edits := EditsOf(Decider(builtin, before, found), ts);
             forall i :: 0 <= i < |edits| ==> edits[i].line != found[t.jobId]
    ensures PlanTarget(builtin, before, found, t).Skipped?
  {
    var decide := Decider(builtin, before, found);
    if decide(t).Edited? {
      TargetHasEdit(decide, ts, t);
      var f := DecidedEdit(builtin, before, found, t);
    }
  }

  lemma EditedSkips(
    builtin: seq<Flavor>, before: seq<string>, edits: seq<Edit>, after: seq<string>, t: Target)
    requires CatalogOk(builtin) && t.jobId in FindIn(before) && FindIn(before)[t.jobId] < |after|
    requires EditedTo(builtin, before, edits, FindIn(before)[t.jobId], after[FindIn(before)[t.jobId]])
    ensures PlanTarget(builtin, after, FindIn(before), t).Skipped?
  {
    var k := FindIn(before)[t.jobId];
    var i, f: nat :| 0 <= i < |edits| && edits[i].line == k && edits[i].after == after[k]
                     && EditRewrites(builtin, before, edits[i], f)
                     && edits[i].jobId in FindIn(before) && FindIn(before)[edits[i].jobId] == k;
    EditedLineIsRefused(builtin, before, edits[i], f, after, FindIn(before), t);
  }

  lemma SecondPassSkips(builtin: seq<Flavor>, text: string, ts: seq<Target>, after: seq<string>, t: Target)
    requires CatalogOk(builtin) && PlanView(builtin, text, ts, after) && t in ts
    ensures PlanTarget(builtin, after, FindIn(Bodies(Split(text))), t).Skipped?
  {
    var before, edits := Bodies(Split(text)), Plan(builtin, text, ts).edits;
    var found := FindIn(before);
    if t.jobId in found && found[t.jobId] < |before| {
      var k := found[t.jobId];
      if EditedTo(builtin, before, edits, k, after[k]) {
        EditedSkips(builtin, before, edits, after, t);
      } else {
        SameLineSameOutcome(builtin, before, after, found, t);
        UneditedWasSkipped(builtin, before, found, ts, t);
      }
    }
  }

  lemma {:induction false} NoEdits(decide: Target -> Outcome, ts: seq<Target>)
    requires forall t :: t in ts ==> decide(t).Skipped?
    ensures EditsOf(decide, ts) == []
  {
    if ts != [] {
      NoEdits(decide, ts[..|ts| - 1]);
    }
  }

  lemma BodiesOfZip(bodies: seq<string>, endings: seq<string>)
    requires |bodies| == |endings|
    ensures Bodies(Zip(bodies, endings)) == bodies && Endings(Zip(bodies, endings)) == endings
  {
  }

  /**
   * Planning is idempotent: the planned content has the same selector lines, and planning it again
   * with the same targets plans no edit.
   */
  lemma PlanningAgainPlansNothing(builtin: seq<Flavor>, text: string, ts: seq<Target>)
    requires CatalogOk(builtin) && Plan(builtin, text, ts).edits != []
    ensures Plan(builtin, text, ts).content.Some?
    ensures var again := Plan(builtin, text, ts).content.value;
            && FindIn(Bodies(Split(again))) == FindIn(Bodies(Split(text)))
            && Plan(builtin, again, ts).edits == [] && Plan(builtin, again, ts).content == None
  {
    var after := PlanViewHolds(builtin, text, ts);
    ContentKeepsTerminators(builtin, text, ts);
    BodiesOfZip(after, Endings(Split(text)));
    SameFound(builtin, text, ts, after);
    var found := FindIn(after);
    forall t | t in ts ensures Decider(builtin, after, found)(t).Skipped? {
      SecondPassSkips(builtin, text, ts, after, t);
    }
    NoEdits(Decider(builtin, after, found), ts);
  }

  /**
   * Every planned edit stands on its own job's selector line and rewrites it so that, unless a kept
   * label starts with `#`, the new line's labels are claimed by the target flavor's label and route
   * to that flavor.
   */
  lemma PlannedEditReachesItsFlavor(
    p: Platform, text: string, ts: seq<Target>, i: nat, claimed: seq<string>,
    custom: seq<Flavor>, d: Option<string>, mode: Option<RepoMode>)
    requires CatalogOk(p.builtin) && Namespaced(custom) && i < |Plan(p.builtin, text, ts).edits|
    requires forall f :: f in p.builtin ==> f.routing in claimed
    ensures var e, before := Plan(p.builtin, text, ts).edits[i], Bodies(Split(text));
            && e.jobId in FindIn(before) && FindIn(before)[e.jobId] == e.line < |before|
            && exists t :: t in ts && t.jobId == e.jobId &&
                 PlannedFor(p, e, t, claimed, custom, d, mode)
  {
    var before := Bodies(Split(text));
    var found := FindIn(before);
    var decide := Decider(p.builtin, before, found);
    var e := Plan(p.builtin, text, ts).edits[i];
    var t := EditHasTarget(decide, ts, i);
    var f := DecidedEdit(p.builtin, before, found, t);
    var w, value, v := EditedLine(p.builtin, before, e, f);
    assert e.before == before[e.line];
    assert p.builtin[f] in p.builtin;
    RewrittenIff(p.builtin, value, p.builtin[f].routing);
    if NothingIsCut(ParseRunsOn(value).value) {
      RewrittenJobReachesItsFlavor(p, f, value, claimed, custom, d, mode);
      RewritePreservesMeaningIff(p.builtin, value, p.builtin[f].routing);
      assert ReadsAs(value, v, p.builtin[f].routing);
    }
    assert PlannedFor(p, e, t, claimed, custom, d, mode);
  }

  /** The edited line's labels are the surviving ones and the flavor's, and are claimed and routed as target `t` asked. */
  ghost predicate PlannedFor(
    p: Platform, e: Edit, t: Target, claimed: seq<string>, custom: seq<Flavor>, d: Option<string>, mode: Option<RepoMode>)
  {
    && MatchRunsOn(e.before).Some? && MatchRunsOn(e.after).Some?
    && var (wasValue, newValue) := (MatchRunsOn(e.before).value.1, MatchRunsOn(e.after).value.1);
       && ParseRunsOn(wasValue).Some?
       && (NothingIsCut(ParseRunsOn(wasValue).value) ==>
            && (exists f :: f in p.builtin && f.name == t.flavor && ReadsAs(wasValue, newValue, f.routing))
            && ParseRunsOn(newValue).Some?
            && var labels := Values(ParseRunsOn(newValue).value);
               && DecideClaim(labels, claimed, mode).claim
               && DecideClaim(labels, claimed, mode).via == Some(ViaLabel)
               && ResolveFlavor(p, labels, Options(None, custom, d, false, mode)).flavor == t.flavor)
  }
}
