/** The claim gate: which `runs-on` labels a job may carry, and which rule claims it. */
module Adopt {
  import opened Text
  import opened Filtering

  datatype RepoMode = LabelMode | AdoptMode | OffMode

  function Norm(l: string): string {
    Lower(Trim(l))
  }

  predicate IsAdoptNorm(l: string) {
    l == "ubuntu-latest" || l == "ubuntu-24.04" || l == "ubuntu-22.04" || l == "ubuntu-20.04"
  }

  /** A standard GitHub-hosted label. */
  predicate IsAdoptLabel(l: string) {
    IsAdoptNorm(Norm(l))
  }

  const HOSTED := ["ubuntu-latest", "ubuntu-24.04", "ubuntu-22.04", "ubuntu-20.04"]

  predicate Standard(name: string) {
    Lower(Trim(name)) in HOSTED
  }

  lemma StandardIff(name: string)
    ensures IsAdoptLabel(name) <==> Standard(name)
  {
    HostedListed(Norm(name), HOSTED);
  }

  lemma HostedListed(l: string, names: seq<string>)
    requires names == ["ubuntu-latest", "ubuntu-24.04", "ubuntu-22.04", "ubuntu-20.04"]
    ensures l in names <==> IsAdoptNorm(l)
  {
    assert l in names <==> l == names[0] || l == names[1] || l == names[2] || l == names[3];
  }

  /** Every standard label maps to `base`. */
  function AdoptFlavorForLabel(l: string): Option<string> {
    if IsAdoptLabel(l) then Some("base") else None
  }

  predicate NonLinuxNorm(l: string) {
    StartsWith(l, "windows") || StartsWith(l, "macos")
  }

  predicate X86Norm(l: string) {
    l == "x64" || l == "x86" || l == "x86_64" || l == "x86-64" || l == "amd64" || l == "i386" || l == "i686"
  }

  datatype Why = NotLinux | NeedsX86

  datatype Incompatible = Incompatible(name: string, why: Why)

  function IncompatibleOne(raw: string): Option<Incompatible> {
    var l := Norm(raw);
    if l == "" then None
    else if NonLinuxNorm(l) then Some(Incompatible(l, NotLinux))
    else if X86Norm(Norm(l)) then Some(Incompatible(l, NeedsX86))
    else None
  }

  /** The first label no arm64 Linux runner can serve. */
  function IncompatibleRunnerLabel(labels: seq<string>): (r: Option<Incompatible>)
    ensures r.None? <==> forall i :: 0 <= i < |labels| ==> IncompatibleOne(labels[i]).None?
  {
    if labels == [] then None
    else if IncompatibleOne(labels[0]).Some? then IncompatibleOne(labels[0])
    else IncompatibleRunnerLabel(labels[1..])
  }

  const X86_LABELS := ["x64", "x86", "x86_64", "x86-64", "amd64", "i386", "i686"]

  predicate OtherSystem(name: string) {
    var l := Lower(Trim(name));
    StartsWith(l, "windows") || StartsWith(l, "macos")
  }

  /** No arm64 Linux runner can serve the label: another system, or another architecture. */
  predicate Unservable(name: string) {
    OtherSystem(name) || Lower(Trim(name)) in X86_LABELS
  }

  ghost predicate AllServable(labels: seq<string>) {
    forall i :: 0 <= i < |labels| ==> !Unservable(labels[i])
  }

  lemma IncompatibleIff(name: string)
    ensures IncompatibleOne(name).Some? <==> Unservable(name)
  {
    NormIdempotent(name);
    X86Listed(Norm(name), X86_LABELS);
  }

  lemma X86Listed(l: string, names: seq<string>)
    requires names == ["x64", "x86", "x86_64", "x86-64", "amd64", "i386", "i686"]
    ensures l in names <==> X86Norm(l)
    ensures l == "" ==> l !in names && !NonLinuxNorm(l)
  {
    assert l in names <==> l == names[0] || l == names[1] || l == names[2] || l == names[3] || l == names[4] || l == names[5] || l == names[6];
  }

  lemma CompatibleIff(labels: seq<string>)
    ensures IncompatibleRunnerLabel(labels).None? <==> AllServable(labels)
  {
    forall i | 0 <= i < |labels| ensures IncompatibleOne(labels[i]).Some? <==> Unservable(labels[i]) {
      IncompatibleIff(labels[i]);
    }
  }

  /** The refusal names the label, normalized, and says what is wrong with it. */
  predicate Names(bad: Incompatible, name: string) {
    bad.name == Lower(Trim(name)) && (bad.why == NotLinux <==> OtherSystem(name))
  }

  function Unserved(): string -> bool {
    (name: string) => Unservable(name)
  }

  function NamedBy(bad: Incompatible): string -> bool {
    (name: string) => Names(bad, name)
  }

  lemma IncompatibleWhy(name: string)
    requires IncompatibleOne(name).Some?
    ensures Names(IncompatibleOne(name).value, name)
  {
  }

  lemma IncompatibleNamed(name: string)
    ensures match IncompatibleOne(name)
            case None => !Unserved()(name)
            case Some(bad) => Unserved()(name) && NamedBy(bad)(name)
  {
    IncompatibleIff(name);
    if IncompatibleOne(name).Some? {
      IncompatibleWhy(name);
    }
  }

  lemma {:induction false} FirstFound(labels: seq<string>, p: string -> bool, q: Incompatible -> (string -> bool))
    requires IncompatibleRunnerLabel(labels).Some?
    requires forall l :: p(l) <==> IncompatibleOne(l).Some?
    requires forall l :: p(l) ==> q(IncompatibleOne(l).value)(l)
    ensures FirstIs(labels, p, q(IncompatibleRunnerLabel(labels).value))
  {
    var head, rest := labels[0], labels[1..];
    var bad := IncompatibleRunnerLabel(labels).value;
    assert [head] + rest == labels;
    if p(head) {
      FirstAtOnce(head, rest, p, q(bad));
    } else {
      FirstFound(rest, p, q);
      FirstCons(head, rest, p, q(bad));
    }
  }

  /** The first label that cannot be served is the one named. */
  lemma IncompatibleIsFirst(labels: seq<string>)
    requires IncompatibleRunnerLabel(labels).Some?
    ensures FirstIs(labels, Unserved(), NamedBy(IncompatibleRunnerLabel(labels).value))
  {
    forall l: string
      ensures Unserved()(l) <==> IncompatibleOne(l).Some?
      ensures Unserved()(l) ==> NamedBy(IncompatibleOne(l).value)(l)
    {
      IncompatibleNamed(l);
    }
    FirstFound(labels, Unserved(), NamedBy);
  }

  datatype ClaimVia = ViaLabel | ViaAdopt

  datatype ClaimReason =
    | Refused(bad: Incompatible)
    | ExplicitLabel(name: string)
    | LabelModeOnly
    | StandardLabel(name: string)
    | NoStandardLabel

  datatype ClaimDecision = ClaimDecision(claim: bool, via: Option<ClaimVia>, reason: ClaimReason)

  /** `labels.map(l => l.trim().toLowerCase()).filter(Boolean)`. */
  function NormAll(labels: seq<string>): seq<string> {
    if labels == [] then []
    else (if Norm(labels[0]) == "" then [] else [Norm(labels[0])]) + NormAll(labels[1..])
  }

  /** `labels.find(l => claims.has(l))`. */
  function FirstClaimed(labels: seq<string>, claims: seq<string>): (r: Option<string>)
    ensures r.Some? ==> r.value in labels && r.value in claims
    ensures r.None? ==> forall l :: l in labels ==> l !in claims
  {
    if labels == [] then None
    else if labels[0] in claims then Some(labels[0])
    else FirstClaimed(labels[1..], claims)
  }

  function FirstStandard(labels: seq<string>): Option<string> {
    if labels == [] then None
    else if IsAdoptNorm(labels[0]) then Some(labels[0])
    else FirstStandard(labels[1..])
  }

  /** The verdict on normalized labels. */
  function DecideNormed(labels: seq<string>, claims: seq<string>, mode: Option<RepoMode>): ClaimDecision {
    var bad := IncompatibleRunnerLabel(labels);
    if bad.Some? then ClaimDecision(false, None, Refused(bad.value))
    else
      var explicit := FirstClaimed(labels, claims);
      if explicit.Some? then ClaimDecision(true, Some(ViaLabel), ExplicitLabel(explicit.value))
      else if mode != Some(AdoptMode) then ClaimDecision(false, None, LabelModeOnly)
      else
        var standard := FirstStandard(labels);
        if standard.Some? then ClaimDecision(true, Some(ViaAdopt), StandardLabel(standard.value))
        else ClaimDecision(false, None, NoStandardLabel)
  }

  function DecideClaim(jobLabels: seq<string>, claimedLabels: seq<string>, mode: Option<RepoMode>): ClaimDecision {
    DecideNormed(NormAll(jobLabels), NormAll(claimedLabels), mode)
  }

  lemma LowerKeepsWs(s: string)
    ensures Trimmed(s) ==> Trimmed(Lower(s))
  {
    assert forall c :: IsWs(LowerChar(c)) ==> IsWs(c);
  }

  lemma NormIdempotent(l: string)
    ensures Norm(Norm(l)) == Norm(l)
  {
    var lo, hi := TrimMargins(l);
    LowerKeepsWs(Trim(l));
    TrimIdentity(Norm(l));
    LowerIdempotent(Trim(l));
  }

  /** Normalizing first changes no verdict. */
  lemma IncompatibleOfNorm(l: string)
    ensures IncompatibleOne(Norm(l)) == IncompatibleOne(l)
  {
    NormIdempotent(l);
  }

  lemma {:induction false} IncompatibleOfNormAll(labels: seq<string>)
    ensures IncompatibleRunnerLabel(NormAll(labels)) == IncompatibleRunnerLabel(labels)
  {
    if labels != [] {
      IncompatibleOfNorm(labels[0]);
      IncompatibleOfNormAll(labels[1..]);
      var rest := NormAll(labels[1..]);
      if Norm(labels[0]) == "" {
        assert NormAll(labels) == rest;
      } else {
        assert NormAll(labels) == [Norm(labels[0])] + rest;
        assert NormAll(labels)[1..] == rest;
      }
    }
  }

  /** Some label of the job is on the allowlist, margins and case aside. */
  ghost predicate OnAllowlist(jobLabels: seq<string>, claimedLabels: seq<string>) {
    exists i, j :: 0 <= i < |jobLabels| && 0 <= j < |claimedLabels| && SameLabel(jobLabels[i], claimedLabels[j])
  }

  predicate SameLabel(a: string, b: string) {
    Lower(Trim(a)) == Lower(Trim(b)) != ""
  }

  lemma {:induction false} NormAllMember(labels: seq<string>, l: string)
    ensures l in NormAll(labels) <==> l != "" && exists i :: 0 <= i < |labels| && Norm(labels[i]) == l
  {
    if labels != [] {
      NormAllMember(labels[1..], l);
      if exists i :: 0 <= i < |labels| && Norm(labels[i]) == l {
        var i :| 0 <= i < |labels| && Norm(labels[i]) == l;
        assert i > 0 ==> labels[1..][i - 1] == labels[i];
      }
    }
  }

  lemma OnAllowlistIff(jobLabels: seq<string>, claimedLabels: seq<string>)
    ensures OnAllowlist(jobLabels, claimedLabels) <==> exists l :: l in NormAll(jobLabels) && l in NormAll(claimedLabels)
  {
    if OnAllowlist(jobLabels, claimedLabels) {
      var i, j :| 0 <= i < |jobLabels| && 0 <= j < |claimedLabels| && SameLabel(jobLabels[i], claimedLabels[j]);
      NormAllMember(jobLabels, Norm(jobLabels[i]));
      NormAllMember(claimedLabels, Norm(jobLabels[i]));
    }
    if exists l :: l in NormAll(jobLabels) && l in NormAll(claimedLabels) {
      var l :| l in NormAll(jobLabels) && l in NormAll(claimedLabels);
      NormAllMember(jobLabels, l);
      NormAllMember(claimedLabels, l);
      var i :| 0 <= i < |jobLabels| && Norm(jobLabels[i]) == l;
      var j :| 0 <= j < |claimedLabels| && Norm(claimedLabels[j]) == l;
      assert SameLabel(jobLabels[i], claimedLabels[j]);
    }
  }

  lemma {:induction false} NormAllHas(labels: seq<string>, i: nat)
    requires i < |labels| && Norm(labels[i]) != ""
    ensures Norm(labels[i]) in NormAll(labels)
    decreases |labels|
  {
    if i > 0 {
      NormAllHas(labels[1..], i - 1);
    }
  }

  lemma OnAllowlistIntro(jobLabels: seq<string>, claimedLabels: seq<string>, i: nat, j: nat)
    requires i < |jobLabels| && j < |claimedLabels|
    requires Norm(jobLabels[i]) == Norm(claimedLabels[j]) != ""
    ensures OnAllowlist(jobLabels, claimedLabels)
  {
    assert SameLabel(jobLabels[i], claimedLabels[j]);
  }

  lemma ClaimedNormedIff(labels: seq<string>, claims: seq<string>, mode: Option<RepoMode>)
    ensures var d := DecideNormed(labels, claims, mode);
            (d.claim && d.via == Some(ViaLabel)) <==>
              IncompatibleRunnerLabel(labels).None? && exists l :: l in labels && l in claims
  {
  }

  /**
   * A job is claimed by an explicit label, in every mode, exactly when none of its labels is
   * incompatible and one of them is on the allowlist.
   */
  lemma ClaimedByLabelIff(jobLabels: seq<string>, claimedLabels: seq<string>, mode: Option<RepoMode>)
    ensures var d := DecideClaim(jobLabels, claimedLabels, mode);
            (d.claim && d.via == Some(ViaLabel)) <==>
              AllServable(jobLabels) && OnAllowlist(jobLabels, claimedLabels)
  {
    CompatibleIff(jobLabels);
    IncompatibleOfNormAll(jobLabels);
    OnAllowlistIff(jobLabels, claimedLabels);
    ClaimedNormedIff(NormAll(jobLabels), NormAll(claimedLabels), mode);
  }

  lemma ClaimedWhenCompatible(jobLabels: seq<string>, claimedLabels: seq<string>, mode: Option<RepoMode>)
    requires IncompatibleRunnerLabel(jobLabels).None? && OnAllowlist(jobLabels, claimedLabels)
    ensures var d := DecideClaim(jobLabels, claimedLabels, mode); d.claim && d.via == Some(ViaLabel)
  {
    CompatibleIff(jobLabels);
    ClaimedByLabelIff(jobLabels, claimedLabels, mode);
  }

  lemma {:induction false} FirstStandardIff(labels: seq<string>)
    ensures FirstStandard(labels).Some? <==> exists i :: 0 <= i < |labels| && IsAdoptNorm(labels[i])
  {
    if labels != [] {
      FirstStandardIff(labels[1..]);
      if exists i :: 0 <= i < |labels| && IsAdoptNorm(labels[i]) {
        var i :| 0 <= i < |labels| && IsAdoptNorm(labels[i]);
        assert i > 0 ==> labels[1..][i - 1] == labels[i];
      }
    }
  }

  lemma StandardOfNormAll(labels: seq<string>)
    ensures FirstStandard(NormAll(labels)).Some? <==> exists i :: 0 <= i < |labels| && IsAdoptLabel(labels[i])
  {
    FirstStandardIff(NormAll(labels));
    if FirstStandard(NormAll(labels)).Some? {
      var k :| 0 <= k < |NormAll(labels)| && IsAdoptNorm(NormAll(labels)[k]);
      NormAllMember(labels, NormAll(labels)[k]);
      var i :| 0 <= i < |labels| && Norm(labels[i]) == NormAll(labels)[k];
      assert IsAdoptLabel(labels[i]);
    }
    if exists i :: 0 <= i < |labels| && IsAdoptLabel(labels[i]) {
      var i :| 0 <= i < |labels| && IsAdoptLabel(labels[i]);
      NormAllMember(labels, Norm(labels[i]));
      StandardIsNotBlank(Norm(labels[i]));
      var k :| 0 <= k < |NormAll(labels)| && NormAll(labels)[k] == Norm(labels[i]);
    }
  }

  lemma StandardIsNotBlank(l: string)
    requires IsAdoptNorm(l)
    ensures l != ""
  {
    assert "ubuntu-latest" != "" && "ubuntu-24.04" != "" && "ubuntu-22.04" != "" && "ubuntu-20.04" != "";
  }

  /**
   * A job is adopted by a standard label exactly in adopt mode, when none of its labels is incompatible,
   * none is on the allowlist, and one is a standard hosted one. Nothing else is ever claimed.
   */
  lemma AdoptedIff(jobLabels: seq<string>, claimedLabels: seq<string>, mode: Option<RepoMode>)
    ensures var d := DecideClaim(jobLabels, claimedLabels, mode);
            && (d.via == Some(ViaAdopt) <==>
                  && mode == Some(AdoptMode) && AllServable(jobLabels)
                  && !OnAllowlist(jobLabels, claimedLabels) && exists i :: 0 <= i < |jobLabels| && Standard(jobLabels[i]))
            && (d.claim <==> d.via.Some?)
  {
    CompatibleIff(jobLabels);
    forall i | 0 <= i < |jobLabels| ensures IsAdoptLabel(jobLabels[i]) <==> Standard(jobLabels[i]) {
      StandardIff(jobLabels[i]);
    }
    IncompatibleOfNormAll(jobLabels);
    OnAllowlistIff(jobLabels, claimedLabels);
    StandardOfNormAll(jobLabels);
    DecidedNormedIff(NormAll(jobLabels), NormAll(claimedLabels), mode);
  }

  lemma DecidedNormedIff(labels: seq<string>, claims: seq<string>, mode: Option<RepoMode>)
    ensures var d := DecideNormed(labels, claims, mode);
            && (d.via == Some(ViaAdopt) <==>
                  && mode == Some(AdoptMode) && IncompatibleRunnerLabel(labels).None?
                  && !(exists l :: l in labels && l in claims) && FirstStandard(labels).Some?)
            && (d.claim <==> d.via.Some?)
  {
  }

  /** An incompatible label vetoes the claim whatever the mode and the allowlist say. */
  lemma IncompatibleNeverClaimed(jobLabels: seq<string>, claimedLabels: seq<string>, mode: Option<RepoMode>)
    requires !AllServable(jobLabels)
    ensures !DecideClaim(jobLabels, claimedLabels, mode).claim
  {
    CompatibleIff(jobLabels);
    IncompatibleOfNormAll(jobLabels);
  }

  // ---- the label a decision names -----------------------------------------------------------------------------

  function Allowed(claims: seq<string>): string -> bool {
    (name: string) => Norm(name) != "" && Norm(name) in claims
  }

  function Hosted(): string -> bool {
    (name: string) => Standard(name)
  }

  function Reads(l: string): string -> bool {
    (name: string) => Norm(name) == l
  }

  lemma {:induction false} FirstClaimedIs(labels: seq<string>, claims: seq<string>)
    requires FirstClaimed(NormAll(labels), claims).Some?
    ensures FirstIs(labels, Allowed(claims), Reads(FirstClaimed(NormAll(labels), claims).value))
  {
    var l := FirstClaimed(NormAll(labels), claims).value;
    var rest := NormAll(labels[1..]);
    assert [labels[0]] + labels[1..] == labels;
    if Allowed(claims)(labels[0]) {
      FirstAtOnce(labels[0], labels[1..], Allowed(claims), Reads(l));
    } else {
      assert NormAll(labels) == rest || NormAll(labels)[1..] == rest;
      FirstClaimedIs(labels[1..], claims);
      FirstCons(labels[0], labels[1..], Allowed(claims), Reads(l));
    }
  }

  lemma {:induction false} FirstStandardIs(labels: seq<string>)
    requires FirstStandard(NormAll(labels)).Some?
    ensures FirstIs(labels, Hosted(), Reads(FirstStandard(NormAll(labels)).value))
  {
    var l := FirstStandard(NormAll(labels)).value;
    var rest := NormAll(labels[1..]);
    StandardIff(labels[0]);
    assert [labels[0]] + labels[1..] == labels;
    if Hosted()(labels[0]) {
      StandardIsNotBlank(Norm(labels[0]));
      FirstAtOnce(labels[0], labels[1..], Hosted(), Reads(l));
    } else {
      assert NormAll(labels) == rest || NormAll(labels)[1..] == rest;
      FirstStandardIs(labels[1..]);
      FirstCons(labels[0], labels[1..], Hosted(), Reads(l));
    }
  }

  /** Every decision names the first label its rule found, and a refusal by mode is no other mode's. */
  lemma ReasonNamesItsLabel(jobLabels: seq<string>, claimedLabels: seq<string>, mode: Option<RepoMode>)
    ensures var d := DecideClaim(jobLabels, claimedLabels, mode);
            match d.reason
            case Refused(bad) => !d.claim && FirstIs(jobLabels, Unserved(), NamedBy(bad))
            case ExplicitLabel(l) => d.via == Some(ViaLabel) && FirstIs(jobLabels, Allowed(NormAll(claimedLabels)), Reads(l))
            case LabelModeOnly => !d.claim && mode != Some(AdoptMode)
            case StandardLabel(l) => d.via == Some(ViaAdopt) && FirstIs(jobLabels, Hosted(), Reads(l))
            case NoStandardLabel => !d.claim && mode == Some(AdoptMode)
  {
    var labels, claims := NormAll(jobLabels), NormAll(claimedLabels);
    IncompatibleOfNormAll(jobLabels);
    if IncompatibleRunnerLabel(jobLabels).Some? {
      IncompatibleIsFirst(jobLabels);
    }
    if FirstClaimed(labels, claims).Some? {
      FirstClaimedIs(jobLabels, claims);
    }
    if FirstStandard(labels).Some? {
      FirstStandardIs(jobLabels);
    }
  }
}
