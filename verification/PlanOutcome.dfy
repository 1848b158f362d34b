/** A plan stated target by target: which are rewritten, what their lines become, and which are skipped. */
module PlanOutcome {
  import opened Text
  import opened Filtering
  import opened Lines
  import opened LabelRoundTrip
  import opened Catalog
  import opened Selector
  import opened RewriteRouting
  import opened Scanner
  import opened ScannerLaws
  import opened ScanLines
  import opened Planner
  import opened PlannerLaws
  import opened PlanTwice

  /** The line found for the target's job is a selector whose value is rewritten to `v` for its flavor. */
  ghost predicate RewritesTo(builtin: seq<Flavor>, before: seq<string>, t: Target, line: nat, w: string, v: string) {
    && t.jobId in FindIn(before) && FindIn(before)[t.jobId] == line && line < |before|
    && MatchRunsOn(before[line]).Some? && MatchRunsOn(before[line]).value.0 == w
    && exists f :: f in builtin && f.name == t.flavor
                   && RewriteRunsOnValue(builtin, MatchRunsOn(before[line]).value.1, f.routing) == Rewritten(v)
  }

  /** A target is rewritten: its route does not forbid it, and its line can be. */
  ghost predicate Wanted(builtin: seq<Flavor>, before: seq<string>, t: Target) {
    (t.skip.None? || t.skip.value == "") && exists line: nat, w, v :: RewritesTo(builtin, before, t, line, w, v)
  }

  ghost function Wants(builtin: seq<Flavor>, before: seq<string>): Target -> bool {
    t => Wanted(builtin, before, t)
  }

  ghost function Refuses(builtin: seq<Flavor>, before: seq<string>): Target -> bool {
    t => !Wanted(builtin, before, t)
  }

  /** The edit replaces the target's own line, its indent kept and its value rewritten. */
  ghost predicate EditFor(builtin: seq<Flavor>, before: seq<string>, t: Target, e: Edit) {
    && e.jobId == t.jobId && e.line < |before| && e.before == before[e.line]
    && exists w, v :: RewritesTo(builtin, before, t, e.line, w, v) && e.after == w + "runs-on: " + v
  }

  ghost predicate EditsFor(builtin: seq<Flavor>, before: seq<string>, wanted: seq<Target>, edits: seq<Edit>) {
    |edits| == |wanted| && forall i :: 0 <= i < |edits| ==> EditFor(builtin, before, wanted[i], edits[i])
  }

  /** No built-in flavor of that name, or the value is refused for it. */
  ghost predicate FlavorOrValue(builtin: seq<Flavor>, t: Target, value: string, reason: SkipReason) {
    if forall f :: f in builtin ==> f.name != t.flavor then reason == UnknownFlavor(t.flavor)
    else
      exists f, why :: f in builtin && f.name == t.flavor
                       && RewriteRunsOnValue(builtin, value, f.routing) == RefusedRewrite(why) && reason == ValueRefused(why)
  }

  /**
   * Why a target is skipped: the first that applies of no selector line, a label that routes here already,
   * the route's own refusal, an unknown flavor, and the refusal of the value. A found line always has the
   * expected shape, and a rewrite always changes it.
   */
  ghost predicate SkippedFor(builtin: seq<Flavor>, before: seq<string>, t: Target, reason: SkipReason) {
    if t.jobId !in FindIn(before) then reason == NoRunsOnLine
    else
      var line := FindIn(before)[t.jobId];
      && line < |before| && MatchRunsOn(before[line]).Some?
      && var value := MatchRunsOn(before[line]).value.1;
         if CarriesOwnLabel(builtin, value) then reason == AlreadyRouted
         else if t.skip.Some? && t.skip.value != "" then reason == RouteForbids(t.skip.value)
         else FlavorOrValue(builtin, t, value, reason)
  }

  ghost predicate CarriesOwnLabel(builtin: seq<Flavor>, value: string) {
    && ParseRunsOn(value).Some?
    && var labels := Values(ParseRunsOn(value).value);
       exists i :: 0 <= i < |labels| && RoutesHere(builtin, labels[i])
  }

  ghost predicate SkipFor(builtin: seq<Flavor>, before: seq<string>, t: Target, s: Skip) {
    s.jobId == t.jobId && SkippedFor(builtin, before, t, s.reason)
  }

  ghost predicate SkipsFor(builtin: seq<Flavor>, before: seq<string>, refused: seq<Target>, skipped: seq<Skip>) {
    |skipped| == |refused| && forall i :: 0 <= i < |skipped| ==> SkipFor(builtin, before, refused[i], skipped[i])
  }

  // ---- one target -------------------------------------------------------------------------------------

  lemma NamedIs(builtin: seq<Flavor>, t: Target, f: Flavor)
    requires CatalogOk(builtin) && f in builtin && f.name == t.flavor
    ensures ByName(builtin, t.flavor) == Some(f)
  {
    var g := ByName(builtin, t.flavor).value;
    var i :| 0 <= i < |builtin| && builtin[i] == f;
    var j :| 0 <= j < |builtin| && builtin[j] == g;
  }

  /** A rewritten line is never the line it was. */
  lemma RewriteChanges(builtin: seq<Flavor>, original: string, f: nat, v: string)
    requires CatalogOk(builtin) && f < |builtin| && MatchRunsOn(original).Some?
    requires RewriteRunsOnValue(builtin, MatchRunsOn(original).value.1, builtin[f].routing) == Rewritten(v)
    ensures MatchRunsOn(original).value.0 + RUNS_ON + " " + v != original
  {
    var (w, value) := MatchRunsOn(original).value;
    MatchedValue(original);
    RewrittenIsListValue(builtin, value, builtin[f].routing);
    LineShape(w, v);
    RewrittenLineMatches(w, v);
    RewriteAgainIsRefused(builtin, f, value, builtin[f].routing);
  }

  lemma ForFlavor(builtin: seq<Flavor>, before: seq<string>, t: Target, line: nat, w: string, v: string) returns (f: nat)
    requires CatalogOk(builtin) && RewritesTo(builtin, before, t, line, w, v)
    ensures f < |builtin| && ByName(builtin, t.flavor) == Some(builtin[f])
    ensures RewriteRunsOnValue(builtin, MatchRunsOn(before[line]).value.1, builtin[f].routing) == Rewritten(v)
  {
    var g :| g in builtin && g.name == t.flavor
             && RewriteRunsOnValue(builtin, MatchRunsOn(before[line]).value.1, g.routing) == Rewritten(v);
    NamedIs(builtin, t, g);
    f :| 0 <= f < |builtin| && builtin[f] == g;
  }

  /** A wanted target is edited. */
  lemma WantedIsEdited(builtin: seq<Flavor>, before: seq<string>, t: Target)
    requires CatalogOk(builtin) && Wanted(builtin, before, t)
    ensures PlanTarget(builtin, before, FindIn(before), t).Edited?
  {
    var line: nat, w, v :| RewritesTo(builtin, before, t, line, w, v);
    var f := ForFlavor(builtin, before, t, line, w, v);
    RewriteChanges(builtin, before[line], f, v);
    RewrittenIff(builtin, MatchRunsOn(before[line]).value.1, builtin[f].routing);
  }

  /** An edited target is wanted, and the edit is the one it asks for. */
  lemma EditedIsWanted(builtin: seq<Flavor>, before: seq<string>, t: Target)
    requires PlanTarget(builtin, before, FindIn(before), t).Edited?
    ensures Wanted(builtin, before, t)
    ensures var o := PlanTarget(builtin, before, FindIn(before), t);
            EditFor(builtin, before, t, Edit(t.jobId, o.line, o.before, o.after))
  {
    var o := PlanTarget(builtin, before, FindIn(before), t);
    var e := Edit(t.jobId, o.line, o.before, o.after);
    var f := DecidedEdit(builtin, before, FindIn(before), t);
    EditedIsAllowed(builtin, before, t);
    EditReads(builtin, before, t, e, f);
  }

  lemma EditedIsAllowed(builtin: seq<Flavor>, before: seq<string>, t: Target)
    requires PlanTarget(builtin, before, FindIn(before), t).Edited?
    ensures t.skip.None? || t.skip.value == ""
  {
  }

  lemma EditReads(builtin: seq<Flavor>, before: seq<string>, t: Target, e: Edit, f: nat)
    requires EditRewrites(builtin, before, e, f) && builtin[f].name == t.flavor && e.jobId == t.jobId
    requires t.jobId in FindIn(before) && FindIn(before)[t.jobId] == e.line && (t.skip.None? || t.skip.value == "")
    ensures Wanted(builtin, before, t) && EditFor(builtin, before, t, e)
  {
    var (w, value) := MatchRunsOn(e.before).value;
    var v := RewriteRunsOnValue(builtin, value, builtin[f].routing).value;
    assert builtin[f] in builtin;
    assert RewritesTo(builtin, before, t, e.line, w, v);
    KeyAndSpace(w, v);
  }

  lemma KeyAndSpace(w: string, v: string)
    ensures w + RUNS_ON + " " + v == w + "runs-on: " + v
  {
    assert RUNS_ON + " " == "runs-on: ";
    assert w + RUNS_ON + " " == w + (RUNS_ON + " ");
  }

  /** Edited exactly when wanted, and as wanted. */
  lemma OneTarget(builtin: seq<Flavor>, before: seq<string>, t: Target, o: Outcome)
    requires CatalogOk(builtin) && o == PlanTarget(builtin, before, FindIn(before), t)
    ensures o.Edited? <==> Wanted(builtin, before, t)
    ensures o.Edited? ==> EditFor(builtin, before, t, Edit(t.jobId, o.line, o.before, o.after))
  {
    if o.Edited? {
      EditedIsWanted(builtin, before, t);
    } else if Wanted(builtin, before, t) {
      WantedIsEdited(builtin, before, t);
    }
  }

  /** A found line is a selector line, carriage return or not. */
  lemma FoundMatches(before: seq<string>, job: string)
    requires job in FindIn(before)
    ensures FindIn(before)[job] < |before| && MatchRunsOn(before[FindIn(before)[job]]).Some?
  {
    FoundLineIsNotAnId(ClassifyAll(before), job);
    SelectorOfClass(before[FindIn(before)[job]]);
  }

  lemma SelectorOfClass(raw: string)
    requires Classify(raw).Key? && Classify(raw).runsOn
    ensures MatchRunsOn(raw).Some?
  {
    SelectorLineOf(raw);
    CrAtMost(raw);
    WithoutCr(raw, StripCr(raw));
  }

  lemma SelectorLineOf(raw: string)
    requires Classify(raw).Key? && Classify(raw).runsOn
    ensures MatchRunsOn(StripCr(raw)).Some?
  {
  }

  lemma CrAtMost(raw: string)
    ensures StripCr(raw) == raw || StripCr(raw) + "\r" == raw
  {
  }

  lemma WithoutCr(raw: string, line: string)
    requires line == raw || line + "\r" == raw
    requires MatchRunsOn(line).Some?
    ensures MatchRunsOn(raw).Some?
  {
    var (w, value) := MatchRunsOn(line).value;
    SelectorReads(line, w, value);
    SelectorWithCr(line, w, value);
    SelectorReads(line + "\r", w, value);
  }

  lemma SelectorWithCr(line: string, w: string, value: string)
    requires SelectorLine(line, w, value)
    ensures SelectorLine(line + "\r", w, value)
  {
    var pad, tail :| MadeOf(pad, " \t") && MadeOf(tail, " \t\r") && line == w + ("runs-on:" + (pad + (value + tail)));
    var longer := tail + "\r";
    assert MadeOf(longer, " \t\r");
    assert line + "\r" == w + ("runs-on:" + (pad + (value + longer)));
  }

  /** Every skip has its reason. */
  lemma SkippedAs(builtin: seq<Flavor>, before: seq<string>, t: Target)
    requires CatalogOk(builtin) && PlanTarget(builtin, before, FindIn(before), t).Skipped?
    ensures SkippedFor(builtin, before, t, PlanTarget(builtin, before, FindIn(before), t).reason)
  {
    if t.jobId in FindIn(before) {
      FoundMatches(before, t.jobId);
      LineReason(builtin, before, FindIn(before), t, FindIn(before)[t.jobId]);
    }
  }

  /** Why the target's line, `line`, is skipped. */
  lemma LineReason(builtin: seq<Flavor>, before: seq<string>, found: map<string, nat>, t: Target, line: nat)
    requires CatalogOk(builtin) && PlanTarget(builtin, before, found, t).Skipped?
    requires t.jobId in found && found[t.jobId] == line < |before| && MatchRunsOn(before[line]).Some?
    ensures var reason, value := PlanTarget(builtin, before, found, t).reason, MatchRunsOn(before[line]).value.1;
            if CarriesOwnLabel(builtin, value) then reason == AlreadyRouted
            else if t.skip.Some? && t.skip.value != "" then reason == RouteForbids(t.skip.value)
            else FlavorOrValue(builtin, t, value, reason)
  {
    var (w, value) := MatchRunsOn(before[line]).value;
    OwnLabelIff(builtin, value);
    match ByName(builtin, t.flavor)
    case None =>
    case Some(g) =>
      var f := ByNameIndex(builtin, t.flavor);
      var r := RewriteRunsOnValue(builtin, value, g.routing);
      if r.Rewritten? {
        RewriteChanges(builtin, before[line], f, r.value);
      }
      FlavorReason(builtin, t, value, g, r);
      FlavorStep(builtin, before, found, t, line, w, value, g, r);
  }

  lemma OwnLabelIff(builtin: seq<Flavor>, value: string)
    ensures CarriesOwnLabel(builtin, value) <==>
            ParseRunsOn(value).Some? && AlreadyTargetsLca(builtin, LowerAll(Values(ParseRunsOn(value).value)))
  {
    if ParseRunsOn(value).Some? {
      RoutedIff(builtin, Values(ParseRunsOn(value).value));
    }
  }

  lemma FlavorReason(builtin: seq<Flavor>, t: Target, value: string, g: Flavor, r: Rewrite)
    requires g in builtin && g.name == t.flavor && r == RewriteRunsOnValue(builtin, value, g.routing)
    ensures r.RefusedRewrite? ==> FlavorOrValue(builtin, t, value, ValueRefused(r.reason))
  {
  }

  lemma FlavorStep(
    builtin: seq<Flavor>, before: seq<string>, found: map<string, nat>, t: Target, line: nat, w: string, value: string,
    g: Flavor, r: Rewrite
  )
    requires PlanTarget(builtin, before, found, t).Skipped?
    requires t.jobId in found && found[t.jobId] == line < |before| && MatchRunsOn(before[line]) == Some((w, value))
    requires ByName(builtin, t.flavor) == Some(g) && r == RewriteRunsOnValue(builtin, value, g.routing)
    requires r.Rewritten? ==> w + RUNS_ON + " " + r.value != before[line]
    ensures var reason := PlanTarget(builtin, before, found, t).reason;
            || (ParseRunsOn(value).Some? && AlreadyTargetsLca(builtin, LowerAll(Values(ParseRunsOn(value).value))))
            || (t.skip.Some? && t.skip.value != "")
            || (r.RefusedRewrite? && reason == ValueRefused(r.reason))
  {
  }

  // ---- all of them --------------------------------------------------------------------------------------

  /** Each edit is what its target asks for. */
  ghost predicate Asked(wanted: seq<Target>, edits: seq<Edit>, asks: (Target, Edit) -> bool) {
    |edits| == |wanted| && forall i :: 0 <= i < |edits| ==> asks(wanted[i], edits[i])
  }

  lemma MoreEdits(wanted: seq<Target>, edits: seq<Edit>, asks: (Target, Edit) -> bool, t: Target, e: Edit)
    requires Asked(wanted, edits, asks) && asks(t, e)
    ensures Asked(wanted + [t], edits + [e], asks)
  {
  }

  lemma {:induction false} EditsAre(decide: Target -> Outcome, ts: seq<Target>, wants: Target -> bool, asks: (Target, Edit) -> bool)
    returns (wanted: seq<Target>)
    requires forall t :: wants(t) == decide(t).Edited?
    requires forall t :: decide(t).Edited? ==> asks(t, Edit(t.jobId, decide(t).line, decide(t).before, decide(t).after))
    ensures IsFilter(ts, wants, wanted) && Asked(wanted, EditsOf(decide, ts), asks)
  {
    if ts == [] {
      FilterOfNone(wants);
      wanted := [];
    } else {
      var front, last := ts[..|ts| - 1], ts[|ts| - 1];
      var rest := EditsAre(decide, front, wants, asks);
      FilterSnoc(front, last, wants, rest);
      assert front + [last] == ts;
      var o := decide(last);
      if o.Edited? {
        wanted := rest + [last];
        MoreEdits(rest, EditsOf(decide, front), asks, last, Edit(last.jobId, o.line, o.before, o.after));
      } else {
        wanted := rest;
        assert rest + [] == rest && EditsOf(decide, front) + [] == EditsOf(decide, front);
      }
    }
  }

  ghost function Asks(builtin: seq<Flavor>, before: seq<string>): (Target, Edit) -> bool {
    (t, e) => EditFor(builtin, before, t, e)
  }

  lemma WantedIsAsked(builtin: seq<Flavor>, before: seq<string>, decide: Target -> Outcome)
    requires CatalogOk(builtin) && decide == Decider(builtin, before, FindIn(before))
    ensures forall t :: Wants(builtin, before)(t) == decide(t).Edited?
    ensures forall t :: decide(t).Edited? ==> Asks(builtin, before)(t, Edit(t.jobId, decide(t).line, decide(t).before, decide(t).after))
  {
    forall t
      ensures Wants(builtin, before)(t) == decide(t).Edited?
      ensures decide(t).Edited? ==> Asks(builtin, before)(t, Edit(t.jobId, decide(t).line, decide(t).before, decide(t).after))
    {
      OneTarget(builtin, before, t, decide(t));
    }
  }

  /** Each skip is the one its target gets. */
  ghost predicate Given(refused: seq<Target>, skipped: seq<Skip>, gets: (Target, Skip) -> bool) {
    |skipped| == |refused| && forall i :: 0 <= i < |skipped| ==> gets(refused[i], skipped[i])
  }

  lemma MoreSkips(refused: seq<Target>, skipped: seq<Skip>, gets: (Target, Skip) -> bool, t: Target, s: Skip)
    requires Given(refused, skipped, gets) && gets(t, s)
    ensures Given(refused + [t], skipped + [s], gets)
  {
  }

  lemma {:induction false} SkipsAre(decide: Target -> Outcome, ts: seq<Target>, refuses: Target -> bool, gets: (Target, Skip) -> bool)
    returns (refused: seq<Target>)
    requires forall t :: refuses(t) == !decide(t).Edited?
    requires forall t :: decide(t).Skipped? ==> gets(t, Skip(t.jobId, decide(t).reason))
    ensures IsFilter(ts, refuses, refused) && Given(refused, SkipsOf(decide, ts), gets)
  {
    if ts == [] {
      FilterOfNone(refuses);
      refused := [];
    } else {
      var front, last := ts[..|ts| - 1], ts[|ts| - 1];
      var rest := SkipsAre(decide, front, refuses, gets);
      FilterSnoc(front, last, refuses, rest);
      assert front + [last] == ts;
      if decide(last).Edited? {
        refused := rest;
        assert rest + [] == rest && SkipsOf(decide, front) + [] == SkipsOf(decide, front);
      } else {
        refused := rest + [last];
        MoreSkips(rest, SkipsOf(decide, front), gets, last, Skip(last.jobId, decide(last).reason));
      }
    }
  }

  ghost function Gets(builtin: seq<Flavor>, before: seq<string>): (Target, Skip) -> bool {
    (t, s) => SkipFor(builtin, before, t, s)
  }

  lemma RefusedIsSkipped(builtin: seq<Flavor>, before: seq<string>, decide: Target -> Outcome)
    requires CatalogOk(builtin) && decide == Decider(builtin, before, FindIn(before))
    ensures forall t :: Refuses(builtin, before)(t) == !decide(t).Edited?
    ensures forall t :: decide(t).Skipped? ==> Gets(builtin, before)(t, Skip(t.jobId, decide(t).reason))
  {
    forall t
      ensures Refuses(builtin, before)(t) == !decide(t).Edited?
      ensures decide(t).Skipped? ==> Gets(builtin, before)(t, Skip(t.jobId, decide(t).reason))
    {
      OneTarget(builtin, before, t, decide(t));
      if decide(t).Skipped? {
        SkippedAs(builtin, before, t);
      }
    }
  }

  /** The last edit of a line decides it; a line without one is as it was. */
  ghost predicate Written(before: seq<string>, edits: seq<Edit>, after: seq<string>) {
    && |after| == |before|
    && (forall k :: 0 <= k < |before| && (forall i :: 0 <= i < |edits| ==> edits[i].line != k) ==> after[k] == before[k])
    && forall i :: 0 <= i < |edits| && edits[i].line < |before| && LastOfItsLine(edits, i) ==> after[edits[i].line] == edits[i].after
  }

  ghost predicate LastOfItsLine(edits: seq<Edit>, i: nat)
    requires i < |edits|
  {
    forall j :: i < j < |edits| ==> edits[j].line != edits[i].line
  }

  lemma WrittenOnTop(before: seq<string>, front: seq<Edit>, mid: seq<string>, e: Edit)
    requires Written(before, front, mid) && e.line < |before|
    ensures Written(before, front + [e], mid[e.line := e.after])
  {
    var edits, after := front + [e], mid[e.line := e.after];
    var n := |front|;
    assert edits[n] == e && forall i :: 0 <= i < n ==> edits[i] == front[i];
    forall i | 0 <= i < |edits| && edits[i].line < |before| && LastOfItsLine(edits, i) ensures after[edits[i].line] == edits[i].after {
      if i < n {
        assert edits[n].line != edits[i].line;
        assert LastOfItsLine(front, i) by {
          forall j | i < j < n ensures front[j].line != front[i].line {
            assert edits[j].line != edits[i].line;
          }
        }
      }
    }
    forall k | 0 <= k < |before| && forall i :: 0 <= i < |edits| ==> edits[i].line != k ensures after[k] == before[k] {
      assert edits[n].line != k;
      assert forall i :: 0 <= i < n ==> front[i].line == edits[i].line;
    }
  }

  lemma {:induction false} OverwriteWrites(before: seq<string>, edits: seq<Edit>)
    requires EditsWithin(edits, |before|)
    ensures Written(before, edits, Overwrite(before, edits))
    decreases |edits|
  {
    if edits != [] {
      var n := |edits| - 1;
      OverwriteWrites(before, edits[..n]);
      WrittenOnTop(before, edits[..n], Overwrite(before, edits[..n]), edits[n]);
      assert edits[..n] + [edits[n]] == edits;
    }
  }

  lemma ContentIs(builtin: seq<Flavor>, text: string, ts: seq<Target>)
    requires CatalogOk(builtin) && Plan(builtin, text, ts).edits != []
    ensures var plan := Plan(builtin, text, ts);
            && plan.content.Some?
            && Written(Bodies(Split(text)), plan.edits, Bodies(Split(plan.content.value)))
            && Endings(Split(plan.content.value)) == Endings(Split(text))
  {
    ContentKeepsTerminators(builtin, text, ts);
    OverwriteWrites(Bodies(Split(text)), Plan(builtin, text, ts).edits);
    BodiesOfZip(Overwrite(Bodies(Split(text)), Plan(builtin, text, ts).edits), Endings(Split(text)));
  }

  /**
   * The whole plan. Exactly the wanted targets are edited and exactly the others skipped, with their
   * reasons, each in the order given; there is new content exactly when something is edited, and it is the old text with
   * those lines replaced, every terminator kept.
   */
  lemma PlanIsWhatIsWanted(builtin: seq<Flavor>, text: string, ts: seq<Target>) returns (wanted: seq<Target>, refused: seq<Target>)
    requires CatalogOk(builtin)
    ensures var before, plan := Bodies(Split(text)), Plan(builtin, text, ts);
            && IsFilter(ts, Wants(builtin, before), wanted) && EditsFor(builtin, before, wanted, plan.edits)
            && IsFilter(ts, Refuses(builtin, before), refused) && SkipsFor(builtin, before, refused, plan.skipped)
            && (plan.content.Some? <==> plan.edits != [])
            && (plan.content.Some? ==>
                 && Written(before, plan.edits, Bodies(Split(plan.content.value)))
                 && Endings(Split(plan.content.value)) == Endings(Split(text)))
  {
    var before := Bodies(Split(text));
    var decide := Decider(builtin, before, FindIn(before));
    WantedIsAsked(builtin, before, decide);
    wanted := EditsAre(decide, ts, Wants(builtin, before), Asks(builtin, before));
    RefusedIsSkipped(builtin, before, decide);
    refused := SkipsAre(decide, ts, Refuses(builtin, before), Gets(builtin, before));
    if Plan(builtin, text, ts).edits != [] {
      ContentIs(builtin, text, ts);
    }
  }
}
