/** Which jobs a rewrite is offered for, and the dry run shown for them. */
module Preview {
  import opened Text
  import opened LabelTokens
  import opened LabelRoundTrip
  import opened Adopt
  import opened Catalog
  import opened Filtering
  import opened Selector
  import opened RewriteMeaning
  import opened RewriteRouting
  import opened Planner

  datatype Job = Job(id: string, runsOn: seq<string>, group: Option<string>)

  /** A stored route; an absent or empty `unresolvedCustom` are the same. */
  datatype Route = Route(flavor: string, unresolvedCustom: string)

  predicate UnreachableRunnerGroup(group: Option<string>) {
    group.Some? && Norm(group.value) != "" && Norm(group.value) != "default"
  }

  function Normed(labels: seq<string>): (r: seq<string>)
    ensures |r| == |labels| && forall i :: 0 <= i < |labels| ==> r[i] == Norm(labels[i])
  {
    seq(|labels|, i requires 0 <= i < |labels| => Norm(labels[i]))
  }

  predicate AnyStandard(labels: seq<string>) {
    exists i :: 0 <= i < |labels| && IsAdoptLabel(labels[i])
  }

  predicate Candidate(builtin: seq<Flavor>, job: Job) {
    var lower := Normed(job.runsOn);
    && !AlreadyTargetsLca(builtin, lower)
    && AnyStandard(lower)
    && IncompatibleRunnerLabel(lower).None?
    && !UnreachableRunnerGroup(job.group)
  }

  const UNRESOLVED := "unresolved"
  const CUSTOM_ROUTE := "custom"

  /** A route through a custom flavor, resolved or not, is never rewritten automatically. */
  function CustomRouteSkip(route: Option<Route>): Option<string> {
    if route.Some? && route.value.unresolvedCustom != "" then Some(UNRESOLVED)
    else if route.Some? && IsCustomName(route.value.flavor) then Some(CUSTOM_ROUTE)
    else None
  }

  function RouteOf(routes: map<string, Route>, id: string): Option<Route> {
    if id in routes then Some(routes[id]) else None
  }

  function TargetOf(routes: map<string, Route>, job: Job): Target {
    var route := RouteOf(routes, job.id);
    Target(job.id, if route.Some? then route.value.flavor else "base", CustomRouteSkip(route))
  }

  /** The targets of the wanted jobs, in order. */
  function TargetsOf(wanted: Job -> bool, jobs: seq<Job>, routes: map<string, Route>): seq<Target> {
    if jobs == [] then []
    else
      var last := jobs[|jobs| - 1];
      TargetsOf(wanted, jobs[..|jobs| - 1], routes) + if wanted(last) then [TargetOf(routes, last)] else []
  }

  lemma TargetsAppend(wanted: Job -> bool, jobs: seq<Job>, routes: map<string, Route>, n: nat)
    requires n < |jobs|
    ensures TargetsOf(wanted, jobs[..n + 1], routes) ==
            TargetsOf(wanted, jobs[..n], routes) + if wanted(jobs[n]) then [TargetOf(routes, jobs[n])] else []
  {
    var next := jobs[..n + 1];
    assert next[..|next| - 1] == jobs[..n] && next[n] == jobs[n];
  }

  function Candidates(builtin: seq<Flavor>): Job -> bool {
    job => Candidate(builtin, job)
  }

  method IsCandidate(builtin: seq<Flavor>, job: Job) returns (wanted: bool)
    ensures wanted == Candidate(builtin, job)
  {
    var lower := Normed(job.runsOn);
    if AlreadyTargetsLca(builtin, lower) {
      return false;
    }
    if !AnyStandard(lower) {
      return false;
    }
    if IncompatibleRunnerLabel(lower).Some? {
      return false;
    }
    wanted := !UnreachableRunnerGroup(job.group);
  }

  /**
   * One job's target: its stored flavor, `base` without a route; and forbidden exactly when the route
   * goes through a custom flavor, resolved or not.
   */
  ghost predicate TargetFor(routes: map<string, Route>, job: Job, t: Target) {
    && t.jobId == job.id
    && t.flavor == (if job.id in routes then routes[job.id].flavor else "base")
    && (t.skip.Some? ==> t.skip.value != "")
    && (t.skip.Some? <==> job.id in routes && (routes[job.id].unresolvedCustom != "" || StartsWith(routes[job.id].flavor, "custom-")))
  }

  ghost predicate TargetsFor(routes: map<string, Route>, offered: seq<Job>, ts: seq<Target>) {
    |ts| == |offered| && forall i :: 0 <= i < |ts| ==> TargetFor(routes, offered[i], ts[i])
  }

  lemma {:induction false} TargetsAre(wanted: Job -> bool, jobs: seq<Job>, routes: map<string, Route>) returns (offered: seq<Job>)
    ensures IsFilter(jobs, wanted, offered) && TargetsFor(routes, offered, TargetsOf(wanted, jobs, routes))
  {
    if jobs == [] {
      FilterOfNone(wanted);
      offered := [];
    } else {
      var front, last := jobs[..|jobs| - 1], jobs[|jobs| - 1];
      var rest := TargetsAre(wanted, front, routes);
      FilterSnoc(front, last, wanted, rest);
      assert front + [last] == jobs;
      offered := rest + if wanted(last) then [last] else [];
      RouteIs(routes, last);
    }
  }

  lemma RouteIs(routes: map<string, Route>, job: Job)
    ensures TargetFor(routes, job, TargetOf(routes, job))
  {
    assert UNRESOLVED != "" && CUSTOM_ROUTE != "" && CUSTOM_FLAVOR_PREFIX == "custom-";
  }

  /** Exactly the candidates, in the order given, each with the target its stored route asks for. */
  method RewriteTargets(builtin: seq<Flavor>, jobs: seq<Job>, routes: map<string, Route>)
    returns (out: seq<Target>, ghost offered: seq<Job>)
    ensures IsFilter(jobs, Candidates(builtin), offered) && TargetsFor(routes, offered, out)
    ensures out == TargetsOf(Candidates(builtin), jobs, routes)
  {
    out := [];
    ghost var wanted := Candidates(builtin);
    for n := 0 to |jobs|
      invariant out == TargetsOf(wanted, jobs[..n], routes)
    {
      TargetsAppend(wanted, jobs, routes, n);
      var job := jobs[n];
      var kept := IsCandidate(builtin, job);
      if !kept {
        continue;
      }
      var route := RouteOf(routes, job.id);
      out := out + [Target(job.id, if route.Some? then route.value.flavor else "base", CustomRouteSkip(route))];
    }
    assert jobs[..|jobs|] == jobs;
    offered := TargetsAre(Candidates(builtin), jobs, routes);
  }

  // ---- the candidates are the jobs adopt mode claims ------------------------------------------------------

  lemma AnyStandardIntro(labels: seq<string>, i: nat, standard: string -> bool)
    requires i < |labels| && Norm(labels[i]) != "" && standard(Norm(labels[i]))
    ensures exists k :: 0 <= k < |NormAll(labels)| && standard(NormAll(labels)[k])
  {
    NormAllHas(labels, i);
    var k :| 0 <= k < |NormAll(labels)| && NormAll(labels)[k] == Norm(labels[i]);
  }

  lemma AnyStandardElim(labels: seq<string>, k: nat) returns (i: nat)
    requires k < |NormAll(labels)|
    ensures i < |labels| && Norm(labels[i]) == NormAll(labels)[k] && Norm(Normed(labels)[i]) == NormAll(labels)[k]
  {
    NormAllMember(labels, NormAll(labels)[k]);
    i :| 0 <= i < |labels| && Norm(labels[i]) == NormAll(labels)[k];
    NormIdempotent(labels[i]);
  }

  /** Dropping blanks and normalizing first changes no answer. */
  lemma StandardAfterNorm(labels: seq<string>)
    ensures FirstStandard(NormAll(labels)).Some? <==> AnyStandard(Normed(labels))
  {
    var normed := Normed(labels);
    FirstStandardIff(NormAll(labels));
    if FirstStandard(NormAll(labels)).Some? {
      var k :| 0 <= k < |NormAll(labels)| && IsAdoptNorm(NormAll(labels)[k]);
      var i := AnyStandardElim(labels, k);
      assert IsAdoptLabel(normed[i]);
    }
    if AnyStandard(normed) {
      var i :| 0 <= i < |normed| && IsAdoptLabel(normed[i]);
      NormIdempotent(labels[i]);
      StandardIsNotBlank(Norm(labels[i]));
      AnyStandardIntro(labels, i, l => IsAdoptNorm(l));
    }
  }

  lemma {:induction false} IncompatibleAfterNorm(labels: seq<string>)
    ensures IncompatibleRunnerLabel(Normed(labels)).None? <==> IncompatibleRunnerLabel(NormAll(labels)).None?
  {
    IncompatibleOfNormAll(labels);
    forall i | 0 <= i < |labels| ensures IncompatibleOne(Normed(labels)[i]) == IncompatibleOne(labels[i]) {
      IncompatibleOfNorm(labels[i]);
    }
  }

  /** Every allowlisted label targets this platform. */
  ghost predicate AllowlistIsLca(builtin: seq<Flavor>, claimed: seq<string>) {
    forall l :: l in NormAll(claimed) ==> IsLcaLabel(builtin, l)
  }

  /** Runners are registered in the default group only; a job that names none needs no other. */
  predicate InDefaultGroup(job: Job) {
    job.group.None? || Lower(Trim(job.group.value)) == "" || Lower(Trim(job.group.value)) == "default"
  }

  /** No label of the job routes here, allowlisted or not. */
  ghost predicate NamesNoOwnLabel(builtin: seq<Flavor>, job: Job) {
    forall i :: 0 <= i < |job.runsOn| ==> !RoutesHere(builtin, Trim(job.runsOn[i]))
  }

  lemma NamesNoneIff(builtin: seq<Flavor>, job: Job)
    ensures NamesNoOwnLabel(builtin, job) <==> !AlreadyTargetsLca(builtin, Normed(job.runsOn))
  {
    var lower := Normed(job.runsOn);
    forall i | 0 <= i < |lower| ensures IsLcaLabel(builtin, lower[i]) <==> RoutesHere(builtin, Trim(job.runsOn[i])) {
      RoutesHereIff(builtin, Trim(job.runsOn[i]));
    }
  }

  /**
   * The rewrite is offered for exactly the jobs that adopt mode claims by a standard label, in a
   * reachable runner group, and that name no LCA label of their own, allowlisted or not.
   */
  lemma CandidateIffAdopted(builtin: seq<Flavor>, job: Job, claimed: seq<string>)
    requires AllowlistIsLca(builtin, claimed)
    ensures Candidate(builtin, job) <==>
            DecideClaim(job.runsOn, claimed, Some(AdoptMode)).via == Some(ViaAdopt)
            && NamesNoOwnLabel(builtin, job) && InDefaultGroup(job)
  {
    var labels := job.runsOn;
    NamesNoneIff(builtin, job);
    StandardAfterNorm(labels);
    IncompatibleAfterNorm(labels);
    if !AlreadyTargetsLca(builtin, Normed(labels)) {
      NothingAllowlisted(builtin, labels, claimed);
    }
    AdoptedNormedIff(NormAll(labels), NormAll(claimed));
  }

  lemma AdoptedNormedIff(labels: seq<string>, claims: seq<string>)
    ensures DecideNormed(labels, claims, Some(AdoptMode)).via == Some(ViaAdopt) <==>
            IncompatibleRunnerLabel(labels).None? && FirstClaimed(labels, claims).None? && FirstStandard(labels).Some?
  {
  }

  lemma NothingAllowlisted(builtin: seq<Flavor>, labels: seq<string>, claimed: seq<string>)
    requires AllowlistIsLca(builtin, claimed) && !AlreadyTargetsLca(builtin, Normed(labels))
    ensures FirstClaimed(NormAll(labels), NormAll(claimed)).None?
  {
    forall l | l in NormAll(labels) ensures l !in NormAll(claimed) {
      NormAllMember(labels, l);
      var i :| 0 <= i < |labels| && Norm(labels[i]) == l;
      assert !IsLcaLabel(builtin, Normed(labels)[i]);
    }
  }

  // ---- the dry run ----------------------------------------------------------------------------------------

  /** The parsed labels rendered back into the inline form. */
  function PreviewBefore(labels: seq<string>, reserved: string -> bool): string {
    if |labels| == 1 then YamlLabelToken(labels[0], reserved)
    else "[" + Join(PrintLabels(labels, reserved), ", ") + "]"
  }

  lemma CleanHasNoHash(t: string)
    requires Clean(t)
    ensures !StartsWith(t, "#")
  {
  }

  lemma PrintedHead(s: string, reserved: string -> bool)
    ensures var t := YamlLabelToken(s, reserved); t != "" && (IsAlnum(t[0]) || t[0] == '"')
  {
  }

  /** One label on its own is read back as that label. */
  lemma OneReadsBack(s: string, reserved: string -> bool)
    requires !Contains(YamlLabelToken(s, reserved), "${{")
    ensures ParseRunsOn(YamlLabelToken(s, reserved)) == Some([Token(YamlLabelToken(s, reserved), s)])
  {
    var t := YamlLabelToken(s, reserved);
    var ts := PrintedListReadsBack([s], reserved);
    assert PrintLabels([s], reserved) == [t] && Join([t], ", ") == t;
    PrintedHead(s, reserved);
    assert Inner(t) == t && Parseable(t);
    assert ts[0].raw == Raws(ts)[0] && ts[0].value == Values(ts)[0];
    assert ts == [Token(t, s)];
  }

  lemma PrintedTokens(labels: seq<string>, reserved: string -> bool) returns (ts: seq<Token>)
    ensures Values(ts) == labels && Raws(ts) == PrintLabels(labels, reserved)
    ensures TokensValid(ts) && NoComments(Raws(ts)) && NoLeadingHash(ts)
  {
    ts := PrintedListReadsBack(labels, reserved);
    var parts := PrintLabels(labels, reserved);
    forall i | 0 <= i < |ts| ensures ts[i].raw == parts[i] && Clean(ts[i].raw) && Unquote(ts[i].raw) == Some(ts[i].value) {
      PrintedTokenReadsBack(labels[i], reserved);
      assert Raws(ts)[i] == ts[i].raw && Values(ts)[i] == ts[i].value;
    }
    forall i | 0 <= i < |ts| ensures !LeadingHash(ts[i]) {
      CleanHasNoHash(ts[i].raw);
    }
  }

  /** A part that holds a pattern puts it into the joined text. */
  lemma {:induction false} JoinHolds(parts: seq<string>, i: nat, pat: string)
    requires i < |parts| && Contains(parts[i], pat)
    ensures Contains(Join(parts, ", "), pat)
    decreases |parts|
  {
    var text := Join(parts, ", ");
    if |parts| > 1 {
      var n := |parts[0]|;
      if i == 0 {
        assert text[0..n] == parts[0];
        ContainsSlice(text, 0, n, pat);
      } else {
        JoinHolds(parts[1..], i - 1, pat);
        assert text[n + 2..|text|] == Join(parts[1..], ", ");
        ContainsSlice(text, n + 2, |text|, pat);
      }
    }
  }

  /** The rendered value carries no comment, and it holds the expressions of its tokens. */
  lemma PreviewParts(ts: seq<Token>, labels: seq<string>, reserved: string -> bool)
    requires Values(ts) == labels && Raws(ts) == PrintLabels(labels, reserved)
    requires TokensValid(ts) && NoComments(Raws(ts)) && |labels| != 1
    ensures var v := PreviewBefore(labels, reserved); SplitComment(v) == (v, "") && Tokenize(Inner(v)) == Some(ts)
    ensures NoExpression(Raws(ts)) <==> Parseable(PreviewBefore(labels, reserved))
  {
    var v, body := PreviewBefore(labels, reserved), Join(Raws(ts), ", ");
    assert v == Bracketed(Raws(ts)) && v + "" == v;
    BracketedReadsBack(ts, "");
    if NoExpression(Raws(ts)) {
      BracketedIsParseable(Raws(ts));
    } else {
      var i :| 0 <= i < |Raws(ts)| && Contains(Raws(ts)[i], "${{");
      JoinHolds(Raws(ts), i, "${{");
      assert v[1..|v| - 1] == body;
      ContainsSlice(v, 1, |v| - 1, "${{");
    }
  }

  /**
   * The rendered value is read back as the job's labels, none of its tokens starting with '#', exactly
   * when there are labels and none of them prints an expression.
   */
  lemma PreviewReadsBack(labels: seq<string>, reserved: string -> bool) returns (ts: seq<Token>)
    ensures Values(ts) == labels && NoLeadingHash(ts)
    ensures var v := PreviewBefore(labels, reserved);
            && SplitComment(v).0 == v
            && ParseRunsOn(v) == if labels != [] && NoExpression(PrintLabels(labels, reserved)) then Some(ts) else None
  {
    ts := PrintedTokens(labels, reserved);
    if |labels| == 1 {
      var t := YamlLabelToken(labels[0], reserved);
      assert ts[0].raw == Raws(ts)[0] && ts[0].value == Values(ts)[0];
      assert ts == [Token(t, labels[0])] && PrintLabels(labels, reserved) == [t];
      var _ := PrintedListReadsBack(labels, reserved);
      assert Join([t], ", ") == t;
      if !Contains(t, "${{") {
        OneReadsBack(labels[0], reserved);
      }
    } else {
      PreviewParts(ts, labels, reserved);
      assert labels == [] <==> ts == [];
    }
  }

  /** Trimming as well as lower-casing hides no LCA label. */
  lemma LcaAfterNorm(builtin: seq<Flavor>, l: string)
    requires CatalogOk(builtin) && IsLcaLabel(builtin, Lower(l))
    ensures IsLcaLabel(builtin, Norm(l))
  {
    TrimLower(l);
    if IsCustomLabel(Lower(l)) {
      LowerIdempotent(Trim(l));
      NormIdempotent(l);
    } else {
      var i :| 0 <= i < |builtin| && Lower(builtin[i].routing) == Lower(l);
      BuiltinIsOrdinary(builtin[i].routing);
      LowerOfBuiltin(builtin[i].routing);
      TrimIdentity(builtin[i].routing);
      assert Norm(l) == Trim(Lower(l)) == builtin[i].routing;
    }
  }

  lemma NoLcaUntrimmed(builtin: seq<Flavor>, labels: seq<string>)
    requires CatalogOk(builtin) && !AlreadyTargetsLca(builtin, Normed(labels))
    ensures !AlreadyTargetsLca(builtin, LowerAll(labels))
  {
    forall i | 0 <= i < |labels| ensures !IsLcaLabel(builtin, LowerAll(labels)[i]) {
      assert !IsLcaLabel(builtin, Normed(labels)[i]);
      if IsLcaLabel(builtin, Lower(labels[i])) {
        LcaAfterNorm(builtin, labels[i]);
      }
    }
  }

  lemma StandardUntrimmed(labels: seq<string>)
    requires AnyStandard(Normed(labels))
    ensures AnyStandard(labels)
  {
    var i :| 0 <= i < |labels| && IsAdoptLabel(Normed(labels)[i]);
    NormIdempotent(labels[i]);
    assert IsAdoptLabel(labels[i]);
  }

  /** A candidate's own labels pass every check the rewrite makes. */
  lemma CandidateIsRewritable(builtin: seq<Flavor>, job: Job)
    requires CatalogOk(builtin) && Candidate(builtin, job)
    ensures !AlreadyTargetsLca(builtin, LowerAll(job.runsOn)) && AnyStandard(job.runsOn)
    ensures IncompatibleRunnerLabel(job.runsOn).None?
  {
    NoLcaUntrimmed(builtin, job.runsOn);
    IncompatibleAfterNorm(job.runsOn);
    IncompatibleOfNormAll(job.runsOn);
    StandardUntrimmed(job.runsOn);
  }

  /**
   * The dry run of a candidate is a rewrite exactly when none of its labels prints an expression, and
   * is refused as one otherwise. What a rewrite shows says `self-hosted`, every surviving label of the
   * job as often as it occurs and in order, and the flavor's label.
   */
  lemma DryRunSaysExpected(builtin: seq<Flavor>, f: nat, job: Job, reserved: string -> bool) returns (survivors: seq<string>)
    requires CatalogOk(builtin) && f < |builtin| && Candidate(builtin, job)
    ensures IsFilter(job.runsOn, (name: string) => Survives(name), survivors)
    ensures var v := PreviewBefore(job.runsOn, reserved);
            var r := RewriteRunsOnValue(builtin, v, builtin[f].routing);
            if NoExpression(PrintLabels(job.runsOn, reserved))
            then r.Rewritten? && ReadsAs(v, r.value, builtin[f].routing)
                 && Values(ParseRunsOn(r.value).value) == ["self-hosted"] + survivors + [builtin[f].routing]
            else r == RefusedRewrite(IsExpression(v))
  {
    var v, lca := PreviewBefore(job.runsOn, reserved), builtin[f].routing;
    CandidateIsRewritable(builtin, job);
    var ts := PreviewReadsBack(job.runsOn, reserved);
    survivors := Values(Kept(ts));
    SurvivingNames(ts);
    if NoExpression(PrintLabels(job.runsOn, reserved)) {
      AdoptLabelInTokens(ts, job.runsOn);
      RewrittenIff(builtin, v, lca);
      KeptHasNoHash(ts);
      NothingIsCutIff(ts);
      RewritePreservesMeaningIff(builtin, v, lca);
      ReadsAsIff(v, RewriteRunsOnValue(builtin, v, lca).value, lca);
      ExpectedValues(Kept(ts), lca);
    } else {
      ExpressionIsRefused(builtin, job.runsOn, reserved, lca);
    }
  }

  lemma SurvivingNames(ts: seq<Token>)
    ensures IsFilter(Values(ts), (name: string) => Survives(name), Values(Kept(ts)))
  {
    KeptIsFilter(ts);
    FilterMapped(ts, Surviving(), Kept(ts), (t: Token) => t.value, Values(ts), (name: string) => Survives(name), Values(Kept(ts)));
  }

  lemma ExpressionIsRefused(builtin: seq<Flavor>, labels: seq<string>, reserved: string -> bool, lca: string)
    requires !NoExpression(PrintLabels(labels, reserved))
    ensures var v := PreviewBefore(labels, reserved); RewriteRunsOnValue(builtin, v, lca) == RefusedRewrite(IsExpression(v))
  {
    var parts, v := PrintLabels(labels, reserved), PreviewBefore(labels, reserved);
    var ts := PreviewReadsBack(labels, reserved);
    var i :| 0 <= i < |parts| && Contains(parts[i], "${{");
    if |labels| != 1 {
      JoinHolds(parts, i, "${{");
      assert v[1..|v| - 1] == Join(parts, ", ");
      ContainsSlice(v, 1, |v| - 1, "${{");
    }
    PrintedHead(labels[0], reserved);
    assert v != "";
  }

  lemma AdoptLabelInTokens(ts: seq<Token>, labels: seq<string>)
    requires Values(ts) == labels && AnyStandard(labels)
    ensures HasAdoptLabel(ts)
  {
    var i :| 0 <= i < |labels| && IsAdoptLabel(labels[i]);
    assert ts[i].value == Values(ts)[i];
  }

  lemma KeptHasNoHash(ts: seq<Token>)
    requires NoLeadingHash(ts)
    ensures NoLeadingHash(Kept(ts))
  {
    forall i | 0 <= i < |Kept(ts)| ensures !LeadingHash(Kept(ts)[i]) {
      assert Kept(ts)[i] in Kept(ts);
      var k :| 0 <= k < |ts| && ts[k] == Kept(ts)[i];
    }
  }
}
