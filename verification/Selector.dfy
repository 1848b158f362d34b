/** Rewriting one `runs-on:` value to carry an LCA label. */
module Selector {
  import opened Text
  import opened LabelTokens
  import opened LabelRoundTrip
  import opened Adopt
  import opened Catalog
  import opened Filtering

  datatype Refusal =
    | BlockSequence(comment: string)
    | IsExpression(value: string)
    | RunnerGroupObject
    | NotALabelList(value: string)
    | AlreadyLca
    | NoHostedLabel(labels: seq<string>)
    | AlsoTargets(bad: Incompatible)

  datatype Rewrite = Rewritten(value: string) | RefusedRewrite(reason: Refusal)

  predicate IsLcaLabel(builtin: seq<Flavor>, l: string) {
    (exists i :: 0 <= i < |builtin| && Lower(builtin[i].routing) == l) || IsCustomLabel(l)
  }

  /** Some (lower-cased) label already targets this platform. */
  predicate AlreadyTargetsLca(builtin: seq<Flavor>, lowerLabels: seq<string>) {
    exists i :: 0 <= i < |lowerLabels| && IsLcaLabel(builtin, lowerLabels[i])
  }

  function Inner(value: string): string {
    if StartsWith(value, "[") && EndsWithChar(value, ']') && |value| >= 2 then value[1..|value| - 1] else value
  }

  predicate Parseable(value: string) {
    value != "" && !Contains(value, "${{") && !StartsWith(value, "{")
  }

  /** The label tokens of a raw value, or `None` for a shape that is not an inline label list. */
  function ParseRunsOn(rawValue: string): Option<seq<Token>> {
    var (value, comment) := SplitComment(rawValue);
    if !Parseable(value) then None
    else
      var tokens := Tokenize(Inner(value));
      if tokens.None? || tokens.value == [] then None else tokens
  }

  predicate HasAdoptLabel(ts: seq<Token>) {
    exists i :: 0 <= i < |ts| && IsAdoptLabel(ts[i].value)
  }

  predicate IsKept(t: Token) {
    !IsAdoptLabel(t.value) && Lower(t.value) != "self-hosted"
  }

  /** The labels that survive, in order. */
  function Kept(ts: seq<Token>): (r: seq<Token>)
    ensures forall t :: t in r ==> t in ts && IsKept(t)
  {
    if ts == [] then []
    else if IsKept(ts[0]) then [ts[0]] + Kept(ts[1..])
    else Kept(ts[1..])
  }

  /** A label a rewrite leaves on the job: not a standard hosted one, and not `self-hosted` in any case. */
  predicate Survives(name: string) {
    !Standard(name) && Lower(name) != "self-hosted"
  }

  function Surviving(): Token -> bool {
    (t: Token) => Survives(t.value)
  }

  lemma KeptSurvives(t: Token)
    ensures IsKept(t) <==> Surviving()(t)
  {
    StandardIff(t.value);
  }

  /** All surviving tokens are kept, each as often as it occurs and in order, and no other. */
  lemma {:induction false} KeptIsFilter(ts: seq<Token>)
    ensures IsFilter(ts, Surviving(), Kept(ts))
  {
    if ts == [] {
      FilterOfNone(Surviving());
    } else {
      KeptSurvives(ts[0]);
      KeptIsFilter(ts[1..]);
      FilterCons(ts[0], ts[1..], Surviving(), Kept(ts[1..]));
      assert [ts[0]] + ts[1..] == ts && [] + Kept(ts[1..]) == Kept(ts[1..]);
    }
  }

  const SELF_HOSTED := "self-hosted"

  function Emit(kept: seq<Token>, lca: string): string {
    "[" + Join([SELF_HOSTED] + Raws(kept) + [lca], ", ") + "]"
  }

  function RewriteRunsOnValue(builtin: seq<Flavor>, rawValue: string, lca: string): Rewrite {
    var (value, comment) := SplitComment(rawValue);
    if value == "" then RefusedRewrite(BlockSequence(comment))
    else if Contains(value, "${{") then RefusedRewrite(IsExpression(value))
    else if StartsWith(value, "{") then RefusedRewrite(RunnerGroupObject)
    else
      var tokens := Tokenize(Inner(value));
      if tokens.None? || tokens.value == [] then RefusedRewrite(NotALabelList(value))
      else
        var ts := tokens.value;
        var bad := IncompatibleRunnerLabel(Values(ts));
        if AlreadyTargetsLca(builtin, LowerAll(Values(ts))) then RefusedRewrite(AlreadyLca)
        else if !HasAdoptLabel(ts) then RefusedRewrite(NoHostedLabel(Values(ts)))
        else if bad.Some? then RefusedRewrite(AlsoTargets(bad.value))
        else Rewritten(Emit(Kept(ts), lca) + comment)
  }

  /** The label already routes here: a built-in flavor's, or one of the custom namespace. */
  ghost predicate RoutesHere(builtin: seq<Flavor>, name: string) {
    (exists f :: f in builtin && Lower(f.routing) == Lower(name)) || StartsWith(Lower(Trim(name)), "lambda-ci-custom-")
  }

  lemma RoutesHereIff(builtin: seq<Flavor>, name: string)
    ensures IsLcaLabel(builtin, Lower(name)) <==> RoutesHere(builtin, name)
  {
    TrimLower(name);
    LowerIdempotent(Trim(name));
    if RoutesHere(builtin, name) && exists f :: f in builtin && Lower(f.routing) == Lower(name) {
      var f :| f in builtin && Lower(f.routing) == Lower(name);
      var i :| 0 <= i < |builtin| && builtin[i] == f;
    }
  }

  /** Among the labels one is a standard hosted one, none routes here already, and all can be served. */
  ghost predicate Rewritable(builtin: seq<Flavor>, labels: seq<string>) {
    && (exists i :: 0 <= i < |labels| && Standard(labels[i]))
    && (forall i :: 0 <= i < |labels| ==> !RoutesHere(builtin, labels[i]))
    && AllServable(labels)
  }

  lemma RewritableIff(builtin: seq<Flavor>, ts: seq<Token>)
    ensures Rewritable(builtin, Values(ts)) <==>
            !AlreadyTargetsLca(builtin, LowerAll(Values(ts))) && HasAdoptLabel(ts) && IncompatibleRunnerLabel(Values(ts)).None?
  {
    var labels := Values(ts);
    CompatibleIff(labels);
    HostedIff(ts);
    RoutedIff(builtin, labels);
  }

  lemma HostedIff(ts: seq<Token>)
    ensures HasAdoptLabel(ts) <==> exists i :: 0 <= i < |ts| && Standard(Values(ts)[i])
  {
    forall i | 0 <= i < |ts| ensures IsAdoptLabel(ts[i].value) <==> Standard(Values(ts)[i]) {
      StandardIff(ts[i].value);
    }
  }

  lemma RoutedIff(builtin: seq<Flavor>, labels: seq<string>)
    ensures AlreadyTargetsLca(builtin, LowerAll(labels)) <==> exists i :: 0 <= i < |labels| && RoutesHere(builtin, labels[i])
  {
    forall i | 0 <= i < |labels| ensures IsLcaLabel(builtin, LowerAll(labels)[i]) <==> RoutesHere(builtin, labels[i]) {
      RoutesHereIff(builtin, labels[i]);
    }
  }

  /** Exactly which values are rewritten: the inline label lists with rewritable labels. */
  lemma AcceptedIff(builtin: seq<Flavor>, rawValue: string, lca: string)
    ensures RewriteRunsOnValue(builtin, rawValue, lca).Rewritten? <==>
            ParseRunsOn(rawValue).Some? && Rewritable(builtin, Values(ParseRunsOn(rawValue).value))
  {
    RewrittenIff(builtin, rawValue, lca);
    if ParseRunsOn(rawValue).Some? {
      RewritableIff(builtin, ParseRunsOn(rawValue).value);
    }
  }

  /**
   * Why a value is refused. The first three reasons are about its shape; of a label list the first that
   * applies is given: a label that routes here already, no standard hosted label, the first label that
   * cannot be served.
   */
  lemma RefusedAs(builtin: seq<Flavor>, rawValue: string, lca: string)
    requires RewriteRunsOnValue(builtin, rawValue, lca).RefusedRewrite?
    ensures var why := RewriteRunsOnValue(builtin, rawValue, lca).reason;
            var (value, comment) := SplitComment(rawValue);
            if value == "" then why == BlockSequence(comment)
            else if Contains(value, "${{") then why == IsExpression(value)
            else if StartsWith(value, "{") then why == RunnerGroupObject
            else match ParseRunsOn(rawValue)
              case None => why == NotALabelList(value)
              case Some(ts) =>
                var labels := Values(ts);
                if exists i :: 0 <= i < |labels| && RoutesHere(builtin, labels[i]) then why == AlreadyLca
                else if forall i :: 0 <= i < |labels| ==> !Standard(labels[i]) then why == NoHostedLabel(labels)
                else why.AlsoTargets? && FirstIs(labels, Unserved(), NamedBy(why.bad))
  {
    if ParseRunsOn(rawValue).Some? {
      var ts := ParseRunsOn(rawValue).value;
      RoutedIff(builtin, Values(ts));
      HostedIff(ts);
      if IncompatibleRunnerLabel(Values(ts)).Some? {
        IncompatibleIsFirst(Values(ts));
      }
    }
  }

  /** When a value is rewritten: exactly when it is a label list with a hosted label, no LCA label and no incompatible one. */
  lemma RewrittenIff(builtin: seq<Flavor>, rawValue: string, lca: string)
    ensures RewriteRunsOnValue(builtin, rawValue, lca).Rewritten? <==>
            var ts := ParseRunsOn(rawValue);
            && ts.Some?
            && !AlreadyTargetsLca(builtin, LowerAll(Values(ts.value)))
            && HasAdoptLabel(ts.value)
            && IncompatibleRunnerLabel(Values(ts.value)).None?
  {
  }
}
