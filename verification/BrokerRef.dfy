/** The refs a microVM may present, and the partition each one addresses. */
module BrokerRef {
  import CommaList

  const JITCONFIG := "JITCONFIG"

  predicate Digits(s: string) {
    s != [] && forall i :: 0 <= i < |s| ==> '0' <= s[i] <= '9'
  }

  function RunPk(repo: string, run: string, job: string): string {
    "RUN#" + repo + "#" + run + "#" + job
  }

  function SmokePk(installation: string, attempt: string): string {
    "SMOKE#" + installation + "#" + attempt
  }

  ghost predicate IsRunRef(ref: string) {
    exists repo, run, job :: Digits(repo) && Digits(run) && Digits(job) && ref == RunPk(repo, run, job) + "#" + JITCONFIG
  }

  ghost predicate IsSmokeRef(ref: string) {
    exists installation, attempt :: Digits(installation) && Digits(attempt) && ref == SmokePk(installation, attempt) + "#" + JITCONFIG
  }

  /** Everything before the first separator. */
  function Before(s: string, sep: string): string {
    if |s| < |sep| || s == [] then s
    else if sep <= s then ""
    else [s[0]] + Before(s[1..], sep)
  }

  function PkFromRef(ref: string): string {
    Before(ref, "#" + JITCONFIG)
  }

  /** In `pk`, each '#' is followed by a digit. */
  ghost predicate DigitAfterHash(pk: string) {
    forall k :: 0 <= k < |pk| && pk[k] == '#' ==> k + 1 < |pk| && '0' <= pk[k + 1] <= '9'
  }

  lemma AppendField(pk: string, field: string)
    requires DigitAfterHash(pk) && Digits(field)
    ensures DigitAfterHash(pk + "#" + field)
  {
  }

  lemma RunPkShape(repo: string, run: string, job: string)
    requires Digits(repo) && Digits(run) && Digits(job)
    ensures DigitAfterHash(RunPk(repo, run, job)) && RunPk(repo, run, job)[0] == 'R'
  {
    AppendField("RUN", repo);
    AppendField("RUN" + "#" + repo, run);
    AppendField("RUN" + "#" + repo + "#" + run, job);
    assert "RUN#" == "RUN" + "#";
  }

  lemma SmokePkShape(installation: string, attempt: string)
    requires Digits(installation) && Digits(attempt)
    ensures DigitAfterHash(SmokePk(installation, attempt)) && SmokePk(installation, attempt)[0] == 'S'
  {
    AppendField("SMOKE", installation);
    AppendField("SMOKE" + "#" + installation, attempt);
    assert "SMOKE#" == "SMOKE" + "#";
  }

  /** A separator whose second character is no digit first occurs after all of `pk`. */
  lemma {:induction false} BeforeSeparator(pk: string, sep: string)
    requires DigitAfterHash(pk) && |sep| >= 2 && sep[0] == '#' && !('0' <= sep[1] <= '9')
    ensures Before(pk + sep, sep) == pk
  {
    var s := pk + sep;
    if pk == [] {
      assert s == sep;
    } else {
      assert s[1..] == pk[1..] + sep;
      BeforeSeparator(pk[1..], sep);
      assert s[0] == pk[0] && (|pk| > 1 ==> s[1] == pk[1]);
      assert s[0] == '#' ==> s[1] != sep[1];
    }
  }

  /** Every ref made of decimal ids is accepted, and addresses exactly the run it names. */
  lemma MintedRefIsAccepted(repo: nat, run: nat, job: nat)
    ensures var pk := "RUN#" + CommaList.Decimal(repo) + "#" + CommaList.Decimal(run) + "#" + CommaList.Decimal(job);
            IsRunRef(pk + "#JITCONFIG") && PkFromRef(pk + "#JITCONFIG") == pk
  {
    CommaList.DecimalReadsBack(repo);
    CommaList.DecimalReadsBack(run);
    CommaList.DecimalReadsBack(job);
    RunRefOf(CommaList.Decimal(repo), CommaList.Decimal(run), CommaList.Decimal(job));
  }

  lemma RunRefOf(a: string, b: string, c: string)
    requires Digits(a) && Digits(b) && Digits(c)
    ensures IsRunRef(RunPk(a, b, c) + "#JITCONFIG") && PkFromRef(RunPk(a, b, c) + "#JITCONFIG") == RunPk(a, b, c)
  {
    JitSuffix(RunPk(a, b, c));
    RunPkShape(a, b, c);
    BeforeSeparator(RunPk(a, b, c), "#" + JITCONFIG);
  }

  lemma JitSuffix(pk: string)
    ensures pk + "#" + JITCONFIG == pk + "#JITCONFIG" == pk + ("#" + JITCONFIG)
    ensures var sep := "#" + JITCONFIG; sep == "#JITCONFIG" && |sep| > 1 && sep[0] == '#' && sep[1] == 'J'
  {
    assert "#" + JITCONFIG == "#JITCONFIG";
  }

  /** So is every smoke ref. */
  lemma MintedSmokeRefIsAccepted(installation: nat, attempt: nat)
    ensures var pk := "SMOKE#" + CommaList.Decimal(installation) + "#" + CommaList.Decimal(attempt);
            IsSmokeRef(pk + "#JITCONFIG") && PkFromRef(pk + "#JITCONFIG") == pk
  {
    var a, b := CommaList.Decimal(installation), CommaList.Decimal(attempt);
    CommaList.DecimalReadsBack(installation);
    CommaList.DecimalReadsBack(attempt);
    var sep := "#" + JITCONFIG;
    assert sep == "#JITCONFIG" && sep[1] == 'J' && SmokePk(a, b) + "#" + JITCONFIG == SmokePk(a, b) + sep;
    assert Digits(a) && Digits(b);
    SmokePkShape(a, b);
    BeforeSeparator(SmokePk(a, b), sep);
  }

  /**
   * The key a ref addresses is the ref less its suffix: two accepted refs addressing one partition
   * are the same ref, and no run ref addresses a smoke partition.
   */
  lemma RefsAddressTheirOwnPartition(ref: string, ref': string)
    requires (IsRunRef(ref) || IsSmokeRef(ref)) && (IsRunRef(ref') || IsSmokeRef(ref'))
    ensures PkFromRef(ref) + "#" + JITCONFIG == ref
    ensures PkFromRef(ref) == PkFromRef(ref') ==> ref == ref'
    ensures IsRunRef(ref) && IsSmokeRef(ref') ==> PkFromRef(ref) != PkFromRef(ref')
  {
    RefKeepsPk(ref);
    RefKeepsPk(ref');
  }

  lemma RefKeepsPk(ref: string)
    requires IsRunRef(ref) || IsSmokeRef(ref)
    ensures PkFromRef(ref) + "#" + JITCONFIG == ref && PkFromRef(ref) != ""
    ensures PkFromRef(ref)[0] == if IsRunRef(ref) then 'R' else 'S'
    ensures !(IsRunRef(ref) && IsSmokeRef(ref))
  {
    var sep := "#" + JITCONFIG;
    assert sep[1] == 'J';
    forall repo, run, job | Digits(repo) && Digits(run) && Digits(job) && ref == RunPk(repo, run, job) + "#" + JITCONFIG
      ensures PkFromRef(ref) == RunPk(repo, run, job) && ref[0] == 'R'
    {
      RunPkShape(repo, run, job);
      assert ref == RunPk(repo, run, job) + sep;
      BeforeSeparator(RunPk(repo, run, job), sep);
    }
    forall i, a | Digits(i) && Digits(a) && ref == SmokePk(i, a) + "#" + JITCONFIG
      ensures PkFromRef(ref) == SmokePk(i, a) && ref[0] == 'S'
    {
      SmokePkShape(i, a);
      assert ref == SmokePk(i, a) + sep;
      BeforeSeparator(SmokePk(i, a), sep);
    }
  }
}
