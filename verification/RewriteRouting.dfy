/** Where a rewritten job ends up: the claim gate, the resolver, and a second planning pass. */
module RewriteRouting {
  import opened Text
  import opened LabelTokens
  import opened LabelRoundTrip
  import opened Adopt
  import opened Catalog
  import opened Flavors
  import opened FlavorLaws
  import opened Selector
  import opened SelectorLaws
  import opened RewriteMeaning

  lemma NormOfPlain(s: string)
    requires Trimmed(s)
    ensures Norm(s) == Lower(s)
  {
    TrimIdentity(s);
  }

  lemma HeadDiffers(l: string, word: string)
    requires l != "" && word != "" && l[0] != word[0]
    ensures l != word && !StartsWith(l, word)
  {
  }

  /** A normalized label whose first letter starts no hosted, OS or architecture name. */
  lemma OrdinaryNorm(l: string)
    requires l != "" && (l[0] == 's' || l[0] == 'l' || l[0] == '[' || l[0] == '#')
    ensures !NonLinuxNorm(l) && !X86Norm(l) && !IsAdoptNorm(l)
  {
    HeadDiffers(l, "windows");
    HeadDiffers(l, "macos");
    HeadDiffers(l, "x64");
    HeadDiffers(l, "x86");
    HeadDiffers(l, "x86_64");
    HeadDiffers(l, "x86-64");
    HeadDiffers(l, "amd64");
    HeadDiffers(l, "i386");
    HeadDiffers(l, "i686");
    HeadDiffers(l, "ubuntu-latest");
    HeadDiffers(l, "ubuntu-24.04");
    HeadDiffers(l, "ubuntu-22.04");
    HeadDiffers(l, "ubuntu-20.04");
  }

  lemma OrdinaryLabel(s: string)
    requires s != "" && Trimmed(s) && (s[0] == 's' || s[0] == 'l' || s[0] == '[')
    ensures IncompatibleOne(s).None? && !IsAdoptLabel(s)
  {
    NormOfPlain(s);
    assert Norm(s)[0] == LowerChar(s[0]) == s[0];
    NormIdempotent(s);
    OrdinaryNorm(Norm(s));
  }

  lemma BuiltinIsOrdinary(l: string)
    requires BuiltinLabel(l)
    ensures Trimmed(l) && IncompatibleOne(l).None? && !IsAdoptLabel(l) && Norm(l) == l && !IsCustomLabel(l)
  {
    assert l[0] == "lambda-ci"[0];
    BuiltinIsPlain(l);
    OrdinaryLabel(l);
    NormOfPlain(l);
    LowerOfBuiltin(l);
  }

  lemma LowerOfLetters(s: string)
    requires forall i :: 0 <= i < |s| ==> 'a' <= s[i] <= 'z' || s[i] == '-'
    ensures Lower(s) == s
  {
  }

  /** A name of lower-case letters and dashes that starts with 's' is no label of anyone else's. */
  lemma LettersAreOrdinary(s: string)
    requires s != "" && s[0] == 's' && Trimmed(s)
    requires forall i :: 0 <= i < |s| ==> 'a' <= s[i] <= 'z' || s[i] == '-'
    ensures IncompatibleOne(s).None? && Lower(s) == s && !IsCustomLabel(s)
  {
    OrdinaryLabel(s);
    LowerOfLetters(s);
    TrimIdentity(s);
    HeadDiffers(s, CUSTOM_LABEL_PREFIX);
  }

  lemma SelfHostedIsOrdinary()
    ensures IncompatibleOne(SELF_HOSTED).None? && Lower(SELF_HOSTED) == SELF_HOSTED && !IsCustomLabel(SELF_HOSTED)
  {
    assert forall i :: 0 <= i < |SELF_HOSTED| ==> 'a' <= SELF_HOSTED[i] <= 'z' || SELF_HOSTED[i] == '-';
    LettersAreOrdinary(SELF_HOSTED);
  }

  /** `f` is the built-in whose label the rewrite inserts. */
  ghost predicate Inserts(builtin: seq<Flavor>, f: nat, lca: string) {
    f < |builtin| && builtin[f].routing == lca
  }

  lemma ValuesAround(a: Token, kept: seq<Token>, b: Token)
    ensures Values([a] + kept + [b]) == [a.value] + Values(kept) + [b.value]
  {
    var ts := [a] + kept + [b];
    assert forall i :: 1 <= i <= |kept| ==> ts[i] == kept[i - 1];
  }

  lemma ExpectedValues(kept: seq<Token>, lca: string)
    ensures Values(Expected(kept, lca)) == [SELF_HOSTED] + Values(kept) + [lca]
  {
    ValuesAround(Plain(SELF_HOSTED), kept, Plain(lca));
  }

  /** What every label of a list satisfies, from its first, its middle and its last. */
  lemma AllAround(a: string, kept: seq<Token>, b: string, good: string -> bool)
    requires good(a) && good(b) && forall i :: 0 <= i < |kept| ==> good(kept[i].value)
    ensures var labels := [a] + Values(kept) + [b]; forall i :: 0 <= i < |labels| ==> good(labels[i])
  {
    var labels := [a] + Values(kept) + [b];
    assert forall i :: 1 <= i <= |kept| ==> labels[i] == kept[i - 1].value;
  }

  /** The labels of a rewritten job are compatible whenever the kept ones are. */
  lemma RewrittenLabelsCompatible(kept: seq<Token>, lca: string)
    requires BuiltinLabel(lca) && forall i :: 0 <= i < |kept| ==> IncompatibleOne(kept[i].value).None?
    ensures IncompatibleRunnerLabel(Values(Expected(kept, lca))).None?
  {
    BuiltinIsOrdinary(lca);
    SelfHostedIsOrdinary();
    ExpectedValues(kept, lca);
    var good: string -> bool := l => IncompatibleOne(l).None?;
    AllAround(SELF_HOSTED, kept, lca, good);
    var labels := [SELF_HOSTED] + Values(kept) + [lca];
    forall i | 0 <= i < |labels| ensures IncompatibleOne(labels[i]).None? {
      assert good(labels[i]);
    }
  }

  lemma RewrittenIsClaimed(kept: seq<Token>, lca: string, claimed: seq<string>, mode: Option<RepoMode>)
    requires BuiltinLabel(lca) && forall i :: 0 <= i < |kept| ==> IncompatibleOne(kept[i].value).None?
    requires lca in claimed
    ensures var d := DecideClaim(Values(Expected(kept, lca)), claimed, mode); d.claim && d.via == Some(ViaLabel)
  {
    var labels := Values(Expected(kept, lca));
    RewrittenLabelsCompatible(kept, lca);
    BuiltinIsOrdinary(lca);
    ExpectedValues(kept, lca);
    var j :| 0 <= j < |claimed| && claimed[j] == lca;
    assert labels[|labels| - 1] == lca;
    OnAllowlistIntro(labels, claimed, |labels| - 1, j);
    ClaimedWhenCompatible(labels, claimed, mode);
  }

  lemma RewrittenNamesNoCustom(builtin: seq<Flavor>, kept: seq<Token>, lca: string)
    requires BuiltinLabel(lca)
    requires forall i :: 0 <= i < |kept| ==> !IsLcaLabel(builtin, Lower(kept[i].value))
    ensures NoCustomLabels(LowerAll(Values(Expected(kept, lca))))
  {
    BuiltinIsOrdinary(lca);
    SelfHostedIsOrdinary();
    LowerOfBuiltin(lca);
    ExpectedValues(kept, lca);
    var good: string -> bool := l => !IsCustomLabel(Lower(l));
    AllAround(SELF_HOSTED, kept, lca, good);
    var labels := [SELF_HOSTED] + Values(kept) + [lca];
    forall i | 0 <= i < |labels| ensures !IsCustomLabel(LowerAll(labels)[i]) {
      assert good(labels[i]);
    }
  }

  lemma BuiltinHead(l: string)
    requires BuiltinLabel(l)
    ensures l[0] == 'l'
  {
    assert "lambda-ci"[0] == 'l';
  }

  /** Among the labels of a rewritten job only the last can be a built-in one. */
  lemma OnlyLastIsBuiltin(labels: seq<string>, own: string, routing: string, i: nat)
    requires BuiltinLabel(routing) && own != "" && own[0] != 'l' && Lower(own) == own
    requires |labels| >= 2 && labels[0] == own && i < |labels|
    requires forall k :: 0 < k < |labels| - 1 ==> Lower(labels[k]) != Lower(routing)
    requires Lower(labels[i]) == Lower(routing)
    ensures i == |labels| - 1
  {
    LowerOfBuiltin(routing);
    BuiltinHead(routing);
  }

  /** The inserted label is the only catalog label on the job. */
  lemma OnlyInsertedMatches(builtin: seq<Flavor>, f: nat, kept: seq<Token>, lca: string, g: Flavor)
    requires CatalogOk(builtin) && Inserts(builtin, f, lca)
    requires forall i :: 0 <= i < |kept| ==> !IsLcaLabel(builtin, Lower(kept[i].value))
    requires g in builtin && Lower(g.routing) in LowerAll(Values(Expected(kept, lca)))
    ensures g == builtin[f]
  {
    var labels := [SELF_HOSTED] + Values(kept) + [lca];
    ExpectedValues(kept, lca);
    var k :| 0 <= k < |builtin| && builtin[k] == g;
    forall i | 0 < i < |labels| - 1 ensures Lower(labels[i]) != Lower(g.routing) {
      assert labels[i] == kept[i - 1].value;
    }
    var i :| 0 <= i < |labels| && LowerAll(labels)[i] == Lower(g.routing);
    SelfHostedIsOrdinary();
    OnlyLastIsBuiltin(labels, SELF_HOSTED, g.routing, i);
    assert Lower(builtin[k].routing) == Lower(builtin[f].routing);
  }

  lemma {:induction false} MatchesNonEmpty(p: Platform, catalog: seq<Flavor>, lower: seq<string>, f: nat)
    requires f < |catalog| && Lower(catalog[f].routing) in lower
    ensures Matches(p, catalog, lower) != []
  {
    HeadIsLongest(p, catalog, lower, f);
  }

  lemma RewrittenIsRouted(
    p: Platform, f: nat, kept: seq<Token>, lca: string, custom: seq<Flavor>, d: Option<string>, mode: Option<RepoMode>)
    requires CatalogOk(p.builtin) && Namespaced(custom) && Inserts(p.builtin, f, lca)
    requires forall i :: 0 <= i < |kept| ==> !IsLcaLabel(p.builtin, Lower(kept[i].value))
    ensures var r := ResolveFlavor(p, Values(Expected(kept, lca)), Options(None, custom, d, false, mode));
            r.flavor == p.builtin[f].name && r.replaced.None? && r.unresolvedCustom.None?
  {
    var labels := Values(Expected(kept, lca));
    var lower := LowerAll(labels);
    RewrittenNamesNoCustom(p.builtin, kept, lca);
    var extra := ComposeSplits(p.builtin, custom);
    SameMatches(p, p.builtin, extra, lower);
    ExpectedValues(kept, lca);
    assert lower[|lower| - 1] == Lower(p.builtin[f].routing);
    MatchesNonEmpty(p, p.builtin, lower, f);
    MatchesInCatalog(p, p.builtin, lower);
    var head := Matches(p, p.builtin, lower)[0];
    OnlyInsertedMatches(p.builtin, f, kept, lca, head);
    NoUnresolvedLabel(p.builtin + extra, lower, None);
  }

  lemma KeptAreRefusable(builtin: seq<Flavor>, ts: seq<Token>)
    requires !AlreadyTargetsLca(builtin, LowerAll(Values(ts))) && IncompatibleRunnerLabel(Values(ts)).None?
    ensures forall i :: 0 <= i < |Kept(ts)| ==>
              IncompatibleOne(Kept(ts)[i].value).None? && !IsLcaLabel(builtin, Lower(Kept(ts)[i].value))
  {
    var kept := Kept(ts);
    forall i | 0 <= i < |kept| ensures IncompatibleOne(kept[i].value).None? && !IsLcaLabel(builtin, Lower(kept[i].value)) {
      assert kept[i] in kept;
      var j :| 0 <= j < |ts| && ts[j] == kept[i];
      assert Values(ts)[j] == kept[i].value && LowerAll(Values(ts))[j] == Lower(kept[i].value);
    }
  }

  /** How a rewritten value reads, and what its kept labels are known not to be. */
  lemma RewrittenReads(builtin: seq<Flavor>, rawValue: string, lca: string)
    requires BuiltinLabel(lca) && RewriteRunsOnValue(builtin, rawValue, lca).Rewritten? && ParseRunsOn(rawValue).Some?
    requires NothingIsCut(ParseRunsOn(rawValue).value)
    ensures var kept := Kept(ParseRunsOn(rawValue).value);
            && ParseRunsOn(RewriteRunsOnValue(builtin, rawValue, lca).value) == Some(Expected(kept, lca))
            && forall i :: 0 <= i < |kept| ==>
                 IncompatibleOne(kept[i].value).None? && !IsLcaLabel(builtin, Lower(kept[i].value))
  {
    NothingIsCutIff(ParseRunsOn(rawValue).value);
    RewrittenSaysIff(builtin, rawValue, lca);
    RewrittenIff(builtin, rawValue, lca);
    KeptAreRefusable(builtin, ParseRunsOn(rawValue).value);
  }

  /**
   * End to end: rewriting a job for a flavor yields a selector that the claim gate takes by its
   * label, in every mode, and that routes to that flavor whatever custom flavors, default flavor and
   * mode the repo has.
   */
  lemma RewrittenJobReachesItsFlavor(
    p: Platform, f: nat, rawValue: string, claimed: seq<string>,
    custom: seq<Flavor>, d: Option<string>, mode: Option<RepoMode>)
    requires CatalogOk(p.builtin) && Namespaced(custom) && f < |p.builtin|
    requires RewriteRunsOnValue(p.builtin, rawValue, p.builtin[f].routing).Rewritten?
    requires ParseRunsOn(rawValue).Some? && NothingIsCut(ParseRunsOn(rawValue).value)
    requires p.builtin[f].routing in claimed
    ensures var v := RewriteRunsOnValue(p.builtin, rawValue, p.builtin[f].routing).value;
            && ParseRunsOn(v).Some?
            && var labels := Values(ParseRunsOn(v).value);
               && DecideClaim(labels, claimed, mode).claim
               && DecideClaim(labels, claimed, mode).via == Some(ViaLabel)
               && ResolveFlavor(p, labels, Options(None, custom, d, false, mode)).flavor == p.builtin[f].name
  {
    var kept, lca := Kept(ParseRunsOn(rawValue).value), p.builtin[f].routing;
    RewrittenReads(p.builtin, rawValue, lca);
    RewrittenIsClaimed(kept, lca, claimed, mode);
    RewrittenIsRouted(p, f, kept, lca, custom, d, mode);
  }

  // ---- planning again -----------------------------------------------------------------------------

  lemma ExpectedTargetsLca(builtin: seq<Flavor>, f: nat, kept: seq<Token>, lca: string)
    requires Inserts(builtin, f, lca)
    ensures AlreadyTargetsLca(builtin, LowerAll(Values(Expected(kept, lca))))
  {
    ExpectedValues(kept, lca);
    var lower := LowerAll(Values(Expected(kept, lca)));
    assert lower[|lower| - 1] == Lower(builtin[f].routing);
    assert IsLcaLabel(builtin, lower[|lower| - 1]);
  }

  lemma TruncatedHasNoAdoptLabel(kept: seq<Token>)
    requires forall t :: t in kept ==> IsKept(t)
    ensures !HasAdoptLabel(Truncated(kept))
  {
    var front := kept[..BeforeHash(kept)];
    OrdinaryLabel("[" + SELF_HOSTED);
    forall t | t in front ensures IsKept(t) {
      assert t in kept;
    }
    NoAdoptBehind(Plain("[" + SELF_HOSTED), front);
  }

  lemma NoAdoptBehind(first: Token, kept: seq<Token>)
    requires !IsAdoptLabel(first.value) && forall t :: t in kept ==> IsKept(t)
    ensures !HasAdoptLabel([first] + kept)
  {
    var ts := [first] + kept;
    forall i | 0 <= i < |ts| ensures !IsAdoptLabel(ts[i].value) {
      assert i > 0 ==> ts[i] == kept[i - 1] && kept[i - 1] in kept;
    }
  }

  lemma LcaListIsRefused(builtin: seq<Flavor>, v: string, again: string)
    requires ParseRunsOn(v).Some? && AlreadyTargetsLca(builtin, LowerAll(Values(ParseRunsOn(v).value)))
    ensures RewriteRunsOnValue(builtin, v, again).RefusedRewrite?
  {
    RewrittenIff(builtin, v, again);
  }

  lemma UnhostedListIsRefused(builtin: seq<Flavor>, v: string, again: string)
    requires ParseRunsOn(v).Some? && !HasAdoptLabel(ParseRunsOn(v).value)
    ensures RewriteRunsOnValue(builtin, v, again).RefusedRewrite?
  {
    RewrittenIff(builtin, v, again);
  }

  lemma EmittedIsRefused(builtin: seq<Flavor>, f: nat, kept: seq<Token>, comment: string, again: string)
    requires CatalogOk(builtin) && f < |builtin| && CommentShape(comment)
    requires Readable(kept) && forall t :: t in kept ==> IsKept(t)
    ensures RewriteRunsOnValue(builtin, Emit(kept, builtin[f].routing) + comment, again).RefusedRewrite?
  {
    var lca := builtin[f].routing;
    var v := Emit(kept, lca) + comment;
    if NoLeadingHash(kept) {
      EmitReadsBack(kept, lca, comment);
      ExpectedTargetsLca(builtin, f, kept, lca);
      LcaListIsRefused(builtin, v, again);
    } else {
      EmitIsTruncated(kept, lca, comment);
      TruncatedHasNoAdoptLabel(kept);
      UnhostedListIsRefused(builtin, v, again);
    }
  }

  /** A rewritten value is never rewritten again, whichever label the second pass would insert. */
  lemma RewriteAgainIsRefused(builtin: seq<Flavor>, f: nat, rawValue: string, again: string)
    requires CatalogOk(builtin) && f < |builtin|
    requires RewriteRunsOnValue(builtin, rawValue, builtin[f].routing).Rewritten?
    ensures RewriteRunsOnValue(builtin,
              RewriteRunsOnValue(builtin, rawValue, builtin[f].routing).value, again).RefusedRewrite?
  {
    RewrittenIff(builtin, rawValue, builtin[f].routing);
    var ts := ParseRunsOn(rawValue).value;
    ParsedIsReadable(rawValue);
    KeptReadable(ts);
    EmittedIsRefused(builtin, f, Kept(ts), SplitComment(rawValue).1, again);
  }

  // ---- no spelling slips past the refusals ------------------------------------------------------------

  /**
   * However an incompatible label is spelled, plain or in quotes of either kind, a list that carries
   * it among clean tokens is never rewritten.
   */
  lemma SpelledIncompatibleIsRefused(
    builtin: seq<Flavor>, ts: seq<Token>, i: nat, comment: string, lca: string)
    requires i < |ts| && Spelled(ts[i].raw, ts[i].value)
    requires Unservable(ts[i].value)
    requires forall j :: 0 <= j < |ts| && j != i ==> Clean(ts[j].raw) && Unquote(ts[j].raw) == Some(ts[j].value)
    requires CommentShape(comment)
    ensures RewriteRunsOnValue(builtin, Bracketed(Raws(ts)) + comment, lca).RefusedRewrite?
  {
    SpelledReadsBack(ts[i].raw, ts[i].value);
    IncompatibleIff(ts[i].value);
    BracketedReadsBack(ts, comment);
    RewrittenIff(builtin, Bracketed(Raws(ts)) + comment, lca);
    assert IncompatibleOne(Values(ts)[i]).Some?;
  }

  // ---- the input that loses its label -----------------------------------------------------------------

  lemma HostedIsOrdinary(hosted: string)
    requires PlainShape(hosted) && IsAdoptLabel(hosted)
    ensures IncompatibleOne(hosted).None? && Trimmed(hosted) && Lower(hosted)[0] == 'u'
  {
    assert IsPlainChar(hosted[|hosted| - 1]);
    NormOfPlain(hosted);
    NormIdempotent(hosted);
    UbuntuIsOrdinary(Norm(hosted));
  }

  lemma UbuntuIsOrdinary(l: string)
    requires IsAdoptNorm(l)
    ensures l[0] == 'u' && !NonLinuxNorm(l) && !X86Norm(l)
  {
    HeadDiffers(l, "windows");
    HeadDiffers(l, "macos");
  }

  lemma HashIsOrdinary(s: string)
    requires s != "" && Trimmed(s) && s[0] == '#'
    ensures IncompatibleOne(s).None? && !IsAdoptLabel(s) && Lower(s)[0] == '#'
  {
    NormOfPlain(s);
    NormIdempotent(s);
    OrdinaryNorm(Norm(s));
  }

  lemma OtherHeadIsNotLca(builtin: seq<Flavor>, s: string)
    requires CatalogOk(builtin) && Trimmed(s) && s != "" && Lower(s)[0] != 'l'
    ensures !IsLcaLabel(builtin, Lower(s))
  {
    forall i | 0 <= i < |builtin| ensures Lower(builtin[i].routing) != Lower(s) {
      LowerOfBuiltin(builtin[i].routing);
      BuiltinHead(builtin[i].routing);
    }
    LowerKeepsWs(s);
    TrimIdentity(Lower(s));
    LowerIdempotent(s);
    HeadDiffers(Lower(s), CUSTOM_LABEL_PREFIX);
  }

  lemma KeptOfTwo(a: Token, b: Token)
    requires !IsKept(a) && IsKept(b)
    ensures Kept([a, b]) == [b]
  {
    assert [a, b][1..] == [b] && [b][1..] == [];
    assert Kept([b]) == [b] + Kept([]);
  }

  lemma AllOfTwo(a: string, b: string, labels: seq<string>, good: string -> bool)
    requires labels == [a, b] && good(a) && good(b)
    ensures forall i :: 0 <= i < |labels| ==> good(labels[i])
  {
  }

  lemma NoLcaOfTwo(builtin: seq<Flavor>, a: string, b: string, labels: seq<string>)
    requires labels == [a, b] && !IsLcaLabel(builtin, Lower(a)) && !IsLcaLabel(builtin, Lower(b))
    ensures !AlreadyTargetsLca(builtin, LowerAll(labels))
  {
    var good: string -> bool := l => !IsLcaLabel(builtin, Lower(l));
    AllOfTwo(a, b, labels, good);
    forall i | 0 <= i < |LowerAll(labels)| ensures !IsLcaLabel(builtin, LowerAll(labels)[i]) {
      assert good(labels[i]);
    }
  }

  lemma CompatibleOfTwo(a: string, b: string, labels: seq<string>)
    requires labels == [a, b] && IncompatibleOne(a).None? && IncompatibleOne(b).None?
    ensures IncompatibleRunnerLabel(labels).None?
  {
    var good: string -> bool := l => IncompatibleOne(l).None?;
    AllOfTwo(a, b, labels, good);
    forall i | 0 <= i < |labels| ensures IncompatibleOne(labels[i]).None? {
      assert good(labels[i]);
    }
  }

  lemma FirstIsHosted(ts: seq<Token>)
    requires ts != [] && IsAdoptLabel(ts[0].value)
    ensures HasAdoptLabel(ts)
  {
  }

  lemma HashIsKept(hash: string)
    requires hash != "" && Trimmed(hash) && hash[0] == '#'
    ensures IsKept(Plain(hash))
  {
    HashIsOrdinary(hash);
    HeadDiffers(Lower(hash), "self-hosted");
  }

  lemma GluedIsAccepted(builtin: seq<Flavor>, hosted: string, hash: string, labels: seq<string>)
    requires CatalogOk(builtin) && labels == [hosted, hash]
    requires PlainShape(hosted) && IsAdoptLabel(hosted) && hash != "" && Trimmed(hash) && hash[0] == '#'
    ensures !AlreadyTargetsLca(builtin, LowerAll(labels)) && IncompatibleRunnerLabel(labels).None?
  {
    HostedIsOrdinary(hosted);
    HashIsOrdinary(hash);
    OtherHeadIsNotLca(builtin, hosted);
    OtherHeadIsNotLca(builtin, hash);
    NoLcaOfTwo(builtin, hosted, hash, labels);
    CompatibleOfTwo(hosted, hash, labels);
  }

  lemma GluedIsKept(hosted: string, hash: string, ts: seq<Token>)
    requires ts == [Plain(hosted), Plain(hash)]
    requires IsAdoptLabel(hosted) && hash != "" && Trimmed(hash) && hash[0] == '#'
    ensures HasAdoptLabel(ts) && Kept(ts) == [Plain(hash)]
  {
    FirstIsHosted(ts);
    HashIsKept(hash);
    KeptOfTwo(ts[0], ts[1]);
  }

  lemma AcceptedIsEmitted(builtin: seq<Flavor>, rawValue: string, ts: seq<Token>, labels: seq<string>, kept: Token, lca: string)
    requires ParseRunsOn(rawValue) == Some(ts) && Kept(ts) == [kept] && SplitComment(rawValue).1 == ""
    requires labels == Values(ts) && !AlreadyTargetsLca(builtin, LowerAll(labels)) && HasAdoptLabel(ts)
    requires IncompatibleRunnerLabel(labels).None?
    ensures RewriteRunsOnValue(builtin, rawValue, lca) == Rewritten(Emit([kept], lca) + "")
  {
  }

  lemma GluedIsEmitted(builtin: seq<Flavor>, hosted: string, hash: string, raw: string, lca: string)
    requires CatalogOk(builtin)
    requires PlainShape(hosted) && IsAdoptLabel(hosted) && hash != "" && Trimmed(hash) && hash[0] == '#'
    requires ParseRunsOn(raw) == Some([Plain(hosted), Plain(hash)]) && SplitComment(raw).1 == ""
    ensures RewriteRunsOnValue(builtin, raw, lca) == Rewritten(Emit([Plain(hash)], lca) + "")
  {
    var ts := [Plain(hosted), Plain(hash)];
    var labels := Values(ts);
    assert labels == [hosted, hash];
    GluedIsAccepted(builtin, hosted, hash, labels);
    GluedIsKept(hosted, hash, ts);
    AcceptedIsEmitted(builtin, raw, ts, labels, Plain(hash), lca);
  }

  lemma HashIsTrimmed(x: string)
    requires PlainShape(x)
    ensures Trimmed("#" + x)
  {
    assert IsPlainChar(x[|x| - 1]);
  }

  /**
   * The failing family is inhabited: `[ubuntu-latest,#gpu]`, and every list of a hosted label and a
   * label glued to its comma that starts with `#`, is accepted and rewritten to a value that is read
   * as one unclosed `[self-hosted`. The LCA label has become part of a comment.
   */
  lemma GluedHashLosesTheLcaLabel(builtin: seq<Flavor>, hosted: string, x: string, lca: string)
    requires CatalogOk(builtin) && PlainShape(hosted) && IsAdoptLabel(hosted) && PlainShape(x)
    ensures var r := RewriteRunsOnValue(builtin, "[" + Glued(hosted, x) + "]", lca);
            r.Rewritten? && ParseRunsOn(r.value) == Some([Plain("[" + SELF_HOSTED)])
  {
    var raw, hash := "[" + Glued(hosted, x) + "]", "#" + x;
    GluedHashIsRead(hosted, x);
    HashIsTrimmed(x);
    GluedIsEmitted(builtin, hosted, hash, raw, lca);
    KeptHashIsCut(x, lca);
  }
}
