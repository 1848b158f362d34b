/** The resolution rules in order of precedence, each stated without the search that finds its answer. */
module FlavorRules {
  import opened Text
  import opened Filtering
  import opened Adopt
  import opened Catalog
  import opened Flavors
  import opened FlavorLaws

  // ---- the rules ------------------------------------------------------------------------------------

  /** The map's last entry for label `l` (its key in any case) is flavor `v`. */
  ghost predicate Entry(entries: FlavorMap, l: string, v: string) {
    exists i :: 0 <= i < |entries| && EntryAt(entries, l, v, i)
  }

  ghost predicate EntryAt(entries: FlavorMap, l: string, v: string, i: nat)
    requires i < |entries|
  {
    Lower(entries[i].0) == l && entries[i].1 == v && forall j :: i < j < |entries| ==> Lower(entries[j].0) != l
  }

  ghost predicate Has(catalog: seq<Flavor>, name: string) {
    exists f :: f in catalog && f.name == name
  }

  /** The repository's map sends label `l` to a flavor of the catalog. */
  ghost predicate Maps(catalog: seq<Flavor>, opts: Options, l: string, v: string) {
    opts.flavorMap.Some? && v != "" && Has(catalog, v) && Entry(opts.flavorMap.value, l, v)
  }

  ghost predicate Unmapped(catalog: seq<Flavor>, opts: Options, l: string) {
    forall v :: !Maps(catalog, opts, l, v)
  }

  /** Rule 1: the first mapped label decides. */
  ghost predicate ByMap(catalog: seq<Flavor>, lower: seq<string>, opts: Options, flavor: string) {
    exists i :: 0 <= i < |lower| && Maps(catalog, opts, lower[i], flavor)
                && forall j :: 0 <= j < i ==> Unmapped(catalog, opts, lower[j])
  }

  ghost predicate NoneMapped(catalog: seq<Flavor>, lower: seq<string>, opts: Options) {
    forall i :: 0 <= i < |lower| ==> Unmapped(catalog, opts, lower[i])
  }

  ghost predicate Carried(catalog: seq<Flavor>, lower: seq<string>, f: Flavor) {
    f in catalog && Lower(f.routing) in lower
  }

  /** Rule 2: of the flavors whose label the job carries, the longest label wins, then the first name. */
  ghost predicate ByLabel(p: Platform, catalog: seq<Flavor>, lower: seq<string>, flavor: string) {
    exists f :: f in catalog && f.name == flavor && Best(p, catalog, lower, f)
  }

  ghost predicate Best(p: Platform, catalog: seq<Flavor>, lower: seq<string>, f: Flavor) {
    Carried(catalog, lower, f) && forall g :: g in catalog && Carried(catalog, lower, g) && g != f ==>
      |g.routing| < |f.routing| || (|g.routing| == |f.routing| && !p.before(g.name, f.name))
  }

  ghost predicate NoneCarried(catalog: seq<Flavor>, lower: seq<string>) {
    forall f :: f in catalog ==> Lower(f.routing) !in lower
  }

  /** Rule 3: in adopt mode a standard label means `base`. */
  ghost predicate Adopted(lower: seq<string>, opts: Options) {
    opts.mode == Some(AdoptMode) && exists i :: 0 <= i < |lower| && IsAdoptLabel(lower[i])
  }

  /** Rule 4: the repository's default, when the catalog has it. */
  ghost predicate HasDefault(catalog: seq<Flavor>, opts: Options) {
    opts.defaultFlavor.Some? && opts.defaultFlavor.value != "" && Has(catalog, opts.defaultFlavor.value)
  }

  /** Which rule decided, and for what. */
  ghost predicate Decided(p: Platform, catalog: seq<Flavor>, lower: seq<string>, opts: Options, flavor: string, reason: Reason) {
    if !NoneMapped(catalog, lower, opts) then reason.MapOverride? && ByMap(catalog, lower, opts, flavor)
    else if !NoneCarried(catalog, lower) then reason.ExplicitLabelMatch? && ByLabel(p, catalog, lower, flavor)
    else if Adopted(lower, opts) then reason.AdoptLabel? && flavor == "base"
    else if HasDefault(catalog, opts) then reason.RepoDefault? && flavor == opts.defaultFlavor.value
    else reason.BaseFallback? && flavor == "base"
  }

  // ---- the searches find what the rules say -------------------------------------------------------------

  lemma {:induction false} MapGetIs(entries: FlavorMap, l: string)
    ensures forall v :: MapGet(entries, l) == Some(v) <==> Entry(entries, l, v)
    decreases |entries|
  {
    if entries != [] {
      var n := |entries| - 1;
      var front := entries[..n];
      MapGetIs(front, l);
      forall v ensures MapGet(entries, l) == Some(v) <==> Entry(entries, l, v) {
        if Lower(entries[n].0) == l {
          assert EntryAt(entries, l, entries[n].1, n);
          assert forall i :: 0 <= i < n ==> !EntryAt(entries, l, v, i);
        } else {
          EntrySkips(entries, l, v, n);
        }
      }
    }
  }

  lemma EntrySkips(entries: FlavorMap, l: string, v: string, n: nat)
    requires |entries| == n + 1 && Lower(entries[n].0) != l
    ensures Entry(entries, l, v) <==> Entry(entries[..n], l, v)
  {
    forall i | 0 <= i < n ensures EntryAt(entries, l, v, i) <==> EntryAt(entries[..n], l, v, i) {
    }
    if Entry(entries, l, v) {
      var i :| 0 <= i < |entries| && EntryAt(entries, l, v, i);
      assert EntryAt(entries[..n], l, v, i);
    }
    if Entry(entries[..n], l, v) {
      var i :| 0 <= i < n && EntryAt(entries[..n], l, v, i);
      assert EntryAt(entries, l, v, i);
    }
  }

  lemma ByNameHas(catalog: seq<Flavor>, name: string)
    ensures ByName(catalog, name).Some? <==> Has(catalog, name)
  {
    if Has(catalog, name) {
      var f :| f in catalog && f.name == name;
      var i :| 0 <= i < |catalog| && catalog[i] == f;
    }
  }

  /** What the map says of one label, as the rule looks it up. */
  lemma MapsIs(catalog: seq<Flavor>, opts: Options, l: string)
    requires opts.flavorMap.Some?
    ensures var m := MapGet(opts.flavorMap.value, l);
            && (Unmapped(catalog, opts, l) <==> !(m.Some? && m.value != "" && ByName(catalog, m.value).Some?))
            && forall v :: Maps(catalog, opts, l, v) <==> m == Some(v) && v != "" && ByName(catalog, v).Some?
  {
    MapGetIs(opts.flavorMap.value, l);
    forall v ensures ByName(catalog, v).Some? <==> Has(catalog, v) {
      ByNameHas(catalog, v);
    }
    var m := MapGet(opts.flavorMap.value, l);
    if m.Some? && m.value != "" && ByName(catalog, m.value).Some? {
      assert Entry(opts.flavorMap.value, l, m.value);
      assert Maps(catalog, opts, l, m.value);
    }
  }

  lemma {:induction false} MapRuleIs(catalog: seq<Flavor>, lower: seq<string>, opts: Options)
    requires opts.flavorMap.Some?
    ensures var m := MapRule(catalog, lower, opts.flavorMap.value);
            if m.Some? then ByMap(catalog, lower, opts, m.value.1) && !NoneMapped(catalog, lower, opts)
            else NoneMapped(catalog, lower, opts)
  {
    if lower != [] {
      MapsIs(catalog, opts, lower[0]);
      var m := MapGet(opts.flavorMap.value, lower[0]);
      if m.Some? && m.value != "" && ByName(catalog, m.value).Some? {
        assert Maps(catalog, opts, lower[0], m.value);
      } else {
        MapRuleIs(catalog, lower[1..], opts);
        LaterLabels(catalog, lower, opts, MapRule(catalog, lower, opts.flavorMap.value));
      }
    }
  }

  lemma LaterLabels(catalog: seq<Flavor>, lower: seq<string>, opts: Options, m: Option<(string, string)>)
    requires lower != [] && Unmapped(catalog, opts, lower[0])
    requires if m.Some? then ByMap(catalog, lower[1..], opts, m.value.1) else NoneMapped(catalog, lower[1..], opts)
    ensures if m.Some? then ByMap(catalog, lower, opts, m.value.1) && !NoneMapped(catalog, lower, opts)
            else NoneMapped(catalog, lower, opts)
  {
    var rest := lower[1..];
    assert forall j :: 0 < j < |lower| ==> lower[j] == rest[j - 1];
    if m.Some? {
      var i :| 0 <= i < |rest| && Maps(catalog, opts, rest[i], m.value.1)
               && forall j :: 0 <= j < i ==> Unmapped(catalog, opts, rest[j]);
      assert Maps(catalog, opts, lower[i + 1], m.value.1);
    }
  }

  /** `f` is not outranked by `g`. */
  predicate Holds(p: Platform, f: Flavor, g: Flavor) {
    |g.routing| < |f.routing| || (|g.routing| == |f.routing| && !p.before(g.name, f.name))
  }

  lemma HoldsTransitive(p: Platform, f: Flavor, g: Flavor, h: Flavor)
    requires StrictTotal(p.before) && Holds(p, f, g) && Holds(p, g, h)
    ensures Holds(p, f, h)
  {
    assert p.before(h.name, f.name) && p.before(f.name, g.name) ==> p.before(h.name, g.name);
    assert p.before(h.name, f.name) && f.name == g.name ==> p.before(h.name, g.name);
  }

  /** The first of the matches is not outranked by any. */
  lemma {:induction false} HeadHolds(p: Platform, catalog: seq<Flavor>, lower: seq<string>)
    requires StrictTotal(p.before)
    ensures var m := Matches(p, catalog, lower);
            && (forall f :: f in m <==> Carried(catalog, lower, f))
            && (m != [] ==> forall g :: g in m ==> Holds(p, m[0], g))
  {
    if catalog != [] {
      HeadHolds(p, catalog[1..], lower);
      var f, rest := catalog[0], Matches(p, catalog[1..], lower);
      InsertHolds(p, f, rest);
      assert catalog == [f] + catalog[1..];
      if Lower(f.routing) in lower && rest != [] {
        assert Ranks(p, rest[0], f) ==> Holds(p, rest[0], f);
        if !Ranks(p, rest[0], f) {
          assert Holds(p, f, rest[0]);
          forall g | g in rest ensures Holds(p, f, g) {
            HoldsTransitive(p, f, rest[0], g);
          }
        }
      }
    }
  }

  lemma MatchesAre(p: Platform, catalog: seq<Flavor>, lower: seq<string>)
    requires StrictTotal(p.before)
    ensures var m := Matches(p, catalog, lower);
            if m != [] then ByLabel(p, catalog, lower, m[0].name) && !NoneCarried(catalog, lower) else NoneCarried(catalog, lower)
  {
    HeadHolds(p, catalog, lower);
    var m := Matches(p, catalog, lower);
    if m != [] {
      assert Carried(catalog, lower, m[0]) && Best(p, catalog, lower, m[0]);
    } else {
      forall f | f in catalog ensures Lower(f.routing) !in lower {
        assert !Carried(catalog, lower, f);
      }
    }
  }

  lemma {:induction false} InsertKeepsDistinct(p: Platform, f: Flavor, s: seq<Flavor>)
    requires DistinctNames(s) && forall g :: g in s ==> g.name != f.name
    ensures DistinctNames(Insert(p, f, s))
  {
    if s != [] && Ranks(p, s[0], f) {
      var rest := s[1..];
      InsertKeepsDistinct(p, f, rest);
      InsertHolds(p, f, rest);
      assert forall g :: g in Insert(p, f, rest) ==> g.name != s[0].name;
    }
  }

  lemma {:induction false} MatchesDistinct(p: Platform, catalog: seq<Flavor>, lower: seq<string>)
    requires DistinctNames(catalog)
    ensures DistinctNames(Matches(p, catalog, lower))
  {
    if catalog != [] {
      MatchesDistinct(p, catalog[1..], lower);
      MatchesInCatalog(p, catalog[1..], lower);
      InsertKeepsDistinct(p, catalog[0], Matches(p, catalog[1..], lower));
    }
  }

  lemma {:induction false} SameLengthAre(s: seq<Flavor>, n: nat)
    ensures forall l :: l in SameLength(s, n) <==> exists g :: g in s && |g.routing| == n && g.routing == l
  {
    if s != [] {
      SameLengthAre(s[1..], n);
      assert s == [s[0]] + s[1..];
    }
  }

  /** The labels reported beside the winner are exactly the equally long ones of the other carried flavors. */
  lemma AmbiguousAre(p: Platform, labels: seq<string>, opts: Options, f: Flavor)
    requires CatalogOk(p.builtin) && StrictTotal(p.before) && !opts.needsDocker
    requires ResolveFlavor(p, labels, opts).reason.ExplicitLabelMatch?
    requires f in Compose(p.builtin, opts.custom) && f.name == ResolveFlavor(p, labels, opts).flavor
    ensures var r, catalog := ResolveFlavor(p, labels, opts), Compose(p.builtin, opts.custom);
            && r.reason.routing == f.routing
            && forall l :: l in r.reason.ambiguousWith <==>
                 exists g :: g in catalog && Carried(catalog, LowerAll(labels), g) && g != f && |g.routing| == |f.routing| && g.routing == l
  {
    var catalog, lower := Compose(p.builtin, opts.custom), LowerAll(labels);
    ComposeKeepsBuiltins(p.builtin, opts.custom);
    LabelReason(p, catalog, labels, opts);
    HeadHolds(p, catalog, lower);
    var m := Matches(p, catalog, lower);
    assert m[0] in m;
    SameFlavorByName(catalog, m[0], f);
    OthersAsLong(p, catalog, lower, f);
  }

  lemma LabelReason(p: Platform, catalog: seq<Flavor>, labels: seq<string>, opts: Options)
    requires !opts.needsDocker && ResolveIn(p, catalog, labels, opts).reason.ExplicitLabelMatch?
    ensures var m, r := Matches(p, catalog, LowerAll(labels)), ResolveIn(p, catalog, labels, opts);
            && m != [] && r.flavor == m[0].name && r.reason.routing == m[0].routing
            && r.reason.ambiguousWith == SameLength(m[1..], |m[0].routing|)
  {
  }

  lemma OthersAsLong(p: Platform, catalog: seq<Flavor>, lower: seq<string>, f: Flavor)
    requires StrictTotal(p.before) && DistinctNames(catalog)
    requires Matches(p, catalog, lower) != [] && Matches(p, catalog, lower)[0] == f
    ensures forall l :: l in SameLength(Matches(p, catalog, lower)[1..], |f.routing|) <==>
              exists g :: g in catalog && Carried(catalog, lower, g) && g != f && |g.routing| == |f.routing| && g.routing == l
  {
    var m := Matches(p, catalog, lower);
    HeadHolds(p, catalog, lower);
    MatchesDistinct(p, catalog, lower);
    SameLengthAre(m[1..], |f.routing|);
    assert m == [f] + m[1..];
    forall g ensures g in m[1..] <==> Carried(catalog, lower, g) && g != f {
      assert g in m[1..] ==> g.name != f.name;
    }
  }

  lemma SameFlavorByName(catalog: seq<Flavor>, f: Flavor, g: Flavor)
    requires DistinctNames(catalog) && f in catalog && g in catalog && f.name == g.name
    ensures f == g
  {
    var i :| 0 <= i < |catalog| && catalog[i] == f;
    var j :| 0 <= j < |catalog| && catalog[j] == g;
  }

  lemma {:induction false} AdoptRuleIs(catalog: seq<Flavor>, lower: seq<string>)
    requires ByName(catalog, "base").Some?
    ensures var m := AdoptRule(catalog, lower);
            && (m.Some? <==> exists i :: 0 <= i < |lower| && IsAdoptLabel(lower[i]))
            && (m.Some? ==> m.value.1 == "base")
  {
    if lower != [] && !IsAdoptLabel(lower[0]) {
      AdoptRuleIs(catalog, lower[1..]);
      assert forall i :: 0 < i < |lower| ==> lower[i] == lower[1..][i - 1];
    }
  }

  /** The rules are consulted in their order, and the first that applies decides. */
  lemma SelectIsDecided(p: Platform, catalog: seq<Flavor>, lower: seq<string>, opts: Options)
    requires StrictTotal(p.before) && ByName(catalog, "base").Some?
    ensures var s := Select(p, catalog, lower, opts);
            Decided(p, catalog, lower, opts, s.flavor, s.reason) && (s.fallback <==> s.reason.RepoDefault? || s.reason.BaseFallback?)
  {
    if opts.flavorMap.Some? {
      MapRuleIs(catalog, lower, opts);
    }
    MatchesAre(p, catalog, lower);
    AdoptRuleIs(catalog, lower);
    if opts.defaultFlavor.Some? {
      ByNameHas(catalog, opts.defaultFlavor.value);
    }
  }

  // ---- the resolution -----------------------------------------------------------------------------------

  lemma ComposedHasBase(p: Platform, opts: Options)
    requires CatalogOk(p.builtin)
    ensures ByName(Compose(p.builtin, opts.custom), "base").Some?
  {
    var catalog := Compose(p.builtin, opts.custom);
    ByNameConcat(p.builtin, catalog[|p.builtin|..], "base");
    assert catalog == p.builtin + catalog[|p.builtin|..];
  }

  /** Without a docker signal, resolution is the decision of the rules, and nothing is replaced. */
  lemma ResolutionIsDecided(p: Platform, labels: seq<string>, opts: Options)
    requires CatalogOk(p.builtin) && StrictTotal(p.before) && !opts.needsDocker
    ensures var r := ResolveFlavor(p, labels, opts);
            Decided(p, Compose(p.builtin, opts.custom), LowerAll(labels), opts, r.flavor, r.reason) && r.replaced.None?
  {
    ComposedHasBase(p, opts);
    SelectIsDecided(p, Compose(p.builtin, opts.custom), LowerAll(labels), opts);
  }

  ghost predicate HasDocker(f: Flavor) {
    "docker" in f.capabilities
  }

  /** A built-in with docker that no other undercuts, by vcpu and then memory. */
  ghost predicate SmallestDocker(builtin: seq<Flavor>, f: Flavor) {
    && f in builtin && HasDocker(f)
    && forall g :: g in builtin && HasDocker(g) ==> f.vcpu < g.vcpu || (f.vcpu == g.vcpu && f.memoryMb <= g.memoryMb)
  }

  lemma {:induction false} LostIsFilter(have: seq<string>, kept: seq<string>)
    ensures IsFilter(have, (c: string) => c !in kept, Lost(have, kept))
  {
    var keep := (c: string) => c !in kept;
    if have == [] {
      FilterOfNone(keep);
    } else {
      LostIsFilter(have[1..], kept);
      SameFilter(have[1..], (c: string) => c !in kept, keep, Lost(have[1..], kept));
      FilterCons(have[0], have[1..], keep, Lost(have[1..], kept));
      assert [have[0]] + have[1..] == have;
      SameFilter(have, keep, (c: string) => c !in kept, Lost(have, kept));
    }
  }

  /** What an upgrade of the selection `plain` came to. */
  ghost predicate UpgradedTo(p: Platform, plain: Resolution, was: Flavor, r: Resolution, to: Flavor) {
    && SmallestDocker(p.builtin, to) && r.flavor == to.name && r.replaced == Some(plain.flavor)
    && r.reason.Upgraded? && r.reason.from == plain.reason && r.reason.to == to.name
    && IsFilter(was.capabilities, (c: string) => c !in to.capabilities, r.reason.lost)
  }

  /**
   * A docker signal replaces the selection exactly when the selected flavor lacks docker and some
   * built-in has it. Then it is replaced by the smallest such built-in, and what is lost is exactly
   * what the replacement lacks; otherwise the signal changes nothing.
   */
  lemma UpgradedIff(p: Platform, labels: seq<string>, opts: Options)
    requires CatalogOk(p.builtin)
    ensures var r, plain := ResolveFlavor(p, labels, opts), ResolveFlavor(p, labels, opts.(needsDocker := false));
            var was := ByName(Compose(p.builtin, opts.custom), plain.flavor);
            && was.Some? && plain.replaced.None? && r.unresolvedCustom == plain.unresolvedCustom
            && (r.replaced.Some? <==> opts.needsDocker && !HasDocker(was.value) && exists f :: f in p.builtin && HasDocker(f))
            && (r.replaced.Some? ==> exists to :: UpgradedTo(p, plain, was.value, r, to))
            && (r.replaced.None? ==> r == plain)
  {
    var catalog, lower, bare := Compose(p.builtin, opts.custom), LowerAll(labels), opts.(needsDocker := false);
    ComposedHasBase(p, opts);
    SelectInCatalog(p, catalog, lower, opts);
    SignalUnread(p, catalog, labels, opts, bare);
    UpgradeShows(p, catalog, Select(p, catalog, lower, opts), opts.needsDocker,
                 ResolveFlavor(p, labels, opts), ResolveFlavor(p, labels, bare));
  }

  lemma UpgradeShows(p: Platform, catalog: seq<Flavor>, s: Selection, needsDocker: bool, r: Resolution, plain: Resolution)
    requires ByName(catalog, s.flavor).Some? && r.unresolvedCustom == plain.unresolvedCustom
    requires plain.(unresolvedCustom := None) == Resolution(s.flavor, s.reason, None, None)
    requires r.(unresolvedCustom := None) == Upgrade(p, catalog, s, needsDocker)
    ensures var was := ByName(catalog, plain.flavor);
            && was.Some? && plain.replaced.None?
            && (r.replaced.Some? <==> needsDocker && !HasDocker(was.value) && exists f :: f in p.builtin && HasDocker(f))
            && (r.replaced.Some? ==> exists to :: UpgradedTo(p, plain, was.value, r, to))
            && (r.replaced.None? ==> r == plain)
  {
    UpgradeIs(p, catalog, s, needsDocker);
    var was, bare := ByName(catalog, s.flavor).value, Resolution(s.flavor, s.reason, None, None);
    if r.replaced.Some? {
      var to :| UpgradedTo(p, bare, was, Upgrade(p, catalog, s, needsDocker), to);
      assert UpgradedTo(p, plain, was, r, to);
    }
  }

  lemma SignalUnread(p: Platform, catalog: seq<Flavor>, labels: seq<string>, opts: Options, bare: Options)
    requires bare == opts.(needsDocker := false)
    ensures var s := Select(p, catalog, LowerAll(labels), opts);
            && ResolveIn(p, catalog, labels, bare).(unresolvedCustom := None) == Resolution(s.flavor, s.reason, None, None)
            && ResolveIn(p, catalog, labels, opts).(unresolvedCustom := None) == Upgrade(p, catalog, s, opts.needsDocker)
            && ResolveIn(p, catalog, labels, opts).unresolvedCustom == ResolveIn(p, catalog, labels, bare).unresolvedCustom
  {
    var lower := LowerAll(labels);
    SelectReadsNoSignal(p, catalog, lower, opts, bare);
  }

  lemma SelectReadsNoSignal(p: Platform, catalog: seq<Flavor>, lower: seq<string>, opts: Options, bare: Options)
    requires bare == opts.(needsDocker := false)
    ensures Select(p, catalog, lower, bare) == Select(p, catalog, lower, opts)
    ensures UnresolvedNamedCustom(catalog, lower, bare) == UnresolvedNamedCustom(catalog, lower, opts)
    ensures RepoDefaultOf(catalog, bare) == RepoDefaultOf(catalog, opts)
  {
  }

  lemma UpgradeIs(p: Platform, catalog: seq<Flavor>, s: Selection, needsDocker: bool)
    requires ByName(catalog, s.flavor).Some?
    ensures var r, plain, was := Upgrade(p, catalog, s, needsDocker), Resolution(s.flavor, s.reason, None, None), ByName(catalog, s.flavor).value;
            && (r.replaced.Some? <==> needsDocker && !HasDocker(was) && exists f :: f in p.builtin && HasDocker(f))
            && (r.replaced.Some? ==> exists to :: UpgradedTo(p, plain, was, r, to))
            && (r.replaced.None? ==> r == plain)
  {
    var r, plain, was := Upgrade(p, catalog, s, needsDocker), Resolution(s.flavor, s.reason, None, None), ByName(catalog, s.flavor).value;
    var up := SmallestWith(p.builtin, "docker");
    if r.replaced.Some? {
      LostIsFilter(was.capabilities, up.value.capabilities);
      assert SmallestDocker(p.builtin, up.value);
      assert UpgradedTo(p, plain, was, r, up.value);
    }
  }

  /** The store is read exactly for a job that names a custom flavor: by a label, or by the map or default of its repository. */
  lemma ReadIff(labels: seq<string>, flavorMap: Option<FlavorMap>, defaultFlavor: Option<string>)
    ensures NeedsCustomFlavors(labels, flavorMap, defaultFlavor) <==>
              || (exists l :: l in labels && StartsWith(Lower(Trim(l)), "lambda-ci-custom-"))
              || (flavorMap.Some? && exists e :: e in flavorMap.value && StartsWith(e.1, "custom-"))
              || (defaultFlavor.Some? && StartsWith(defaultFlavor.value, "custom-"))
  {
    if exists l :: l in labels && IsCustomLabel(l) {
      var l :| l in labels && IsCustomLabel(l);
      var i :| 0 <= i < |labels| && labels[i] == l;
    }
    if flavorMap.Some? && exists e :: e in flavorMap.value && IsCustomName(e.1) {
      var e :| e in flavorMap.value && IsCustomName(e.1);
      var i :| 0 <= i < |flavorMap.value| && flavorMap.value[i] == e;
    }
  }

  // ---- what is reported unresolved ------------------------------------------------------------------------

  /** A custom label nothing in the catalog or the map answers. */
  ghost predicate UnansweredLabel(catalog: seq<Flavor>, opts: Options, l: string) {
    && IsCustomLabel(l) && (forall f :: f in catalog ==> Lower(f.routing) != l)
    && !(opts.flavorMap.Some? && exists v :: Entry(opts.flavorMap.value, l, v) && Has(catalog, v))
  }

  /** A label the map sends to a custom flavor the catalog does not have. */
  ghost predicate DeadEntry(catalog: seq<Flavor>, opts: Options, l: string) {
    opts.flavorMap.Some? && exists v :: Entry(opts.flavorMap.value, l, v) && IsCustomName(v) && !Has(catalog, v)
  }

  lemma RemappedIs(catalog: seq<Flavor>, opts: Options, l: string)
    ensures Remapped(catalog, opts.flavorMap, l) <==>
            opts.flavorMap.Some? && exists v :: Entry(opts.flavorMap.value, l, v) && Has(catalog, v)
    ensures CatalogHasLabel(catalog, l) <==> exists f :: f in catalog && Lower(f.routing) == l
  {
    if opts.flavorMap.Some? {
      MapGetIs(opts.flavorMap.value, l);
      var m := MapGet(opts.flavorMap.value, l);
      if m.Some? {
        assert Entry(opts.flavorMap.value, l, m.value);
        ByNameHas(catalog, m.value);
      }
    }
    if exists f :: f in catalog && Lower(f.routing) == l {
      var f :| f in catalog && Lower(f.routing) == l;
      var i :| 0 <= i < |catalog| && catalog[i] == f;
    }
  }

  lemma {:induction false} UnresolvedLabelIs(catalog: seq<Flavor>, lower: seq<string>, opts: Options)
    ensures UnresolvedLabel(catalog, lower, opts.flavorMap).Some? <==>
            exists i :: 0 <= i < |lower| && UnansweredLabel(catalog, opts, lower[i])
  {
    if lower != [] {
      RemappedIs(catalog, opts, lower[0]);
      UnresolvedLabelIs(catalog, lower[1..], opts);
      assert forall i :: 0 < i < |lower| ==> lower[i] == lower[1..][i - 1];
    }
  }

  lemma {:induction false} UnresolvedEntryIs(catalog: seq<Flavor>, lower: seq<string>, opts: Options)
    requires opts.flavorMap.Some?
    ensures UnresolvedEntry(catalog, lower, opts.flavorMap.value).Some? <==>
            exists i :: 0 <= i < |lower| && DeadEntry(catalog, opts, lower[i])
  {
    if lower != [] {
      DeadEntryIs(catalog, opts, lower[0]);
      UnresolvedEntryIs(catalog, lower[1..], opts);
      assert forall i :: 0 < i < |lower| ==> lower[i] == lower[1..][i - 1];
    }
  }

  lemma DeadEntryIs(catalog: seq<Flavor>, opts: Options, l: string)
    requires opts.flavorMap.Some?
    ensures var m := MapGet(opts.flavorMap.value, l);
            DeadEntry(catalog, opts, l) <==> m.Some? && m.value != "" && IsCustomName(m.value) && ByName(catalog, m.value).None?
  {
    MapGetIs(opts.flavorMap.value, l);
    var m := MapGet(opts.flavorMap.value, l);
    if m.Some? {
      assert Entry(opts.flavorMap.value, l, m.value);
      ByNameHas(catalog, m.value);
    }
  }

  /**
   * A custom flavor is reported unresolved exactly when a label of the job asks for one that nothing
   * answers, the map sends a label of the job to one the catalog lacks, or the fallback is taken and
   * the repository's default is one the catalog lacks.
   */
  lemma UnresolvedIff(p: Platform, labels: seq<string>, opts: Options)
    requires CatalogOk(p.builtin) && StrictTotal(p.before)
    ensures var r, catalog, lower := ResolveFlavor(p, labels, opts), Compose(p.builtin, opts.custom), LowerAll(labels);
            r.unresolvedCustom.Some? <==>
              || (exists i :: 0 <= i < |lower| && UnansweredLabel(catalog, opts, lower[i]))
              || (exists i :: 0 <= i < |lower| && DeadEntry(catalog, opts, lower[i]))
              || (NoneMapped(catalog, lower, opts) && NoneCarried(catalog, lower) && !Adopted(lower, opts)
                  && opts.defaultFlavor.Some? && IsCustomName(opts.defaultFlavor.value) && !Has(catalog, opts.defaultFlavor.value))
  {
    var catalog, lower := Compose(p.builtin, opts.custom), LowerAll(labels);
    ComposedHasBase(p, opts);
    SelectIsDecided(p, catalog, lower, opts);
    UnresolvedLabelIs(catalog, lower, opts);
    if opts.flavorMap.Some? {
      UnresolvedEntryIs(catalog, lower, opts);
    } else {
      assert forall l :: !DeadEntry(catalog, opts, l);
    }
    var s := Select(p, catalog, lower, opts);
    FallbackIs(p, catalog, lower, opts, s.flavor, s.reason);
    DefaultIs(catalog, opts);
    NamedIs(catalog, lower, opts);
    ReportedIs(p, catalog, labels, opts);
  }

  lemma FallbackIs(p: Platform, catalog: seq<Flavor>, lower: seq<string>, opts: Options, flavor: string, reason: Reason)
    requires Decided(p, catalog, lower, opts, flavor, reason)
    ensures reason.RepoDefault? || reason.BaseFallback? <==>
            NoneMapped(catalog, lower, opts) && NoneCarried(catalog, lower) && !Adopted(lower, opts)
  {
  }

  lemma NamedIs(catalog: seq<Flavor>, lower: seq<string>, opts: Options)
    requires UnresolvedLabel(catalog, lower, opts.flavorMap).Some? <==>
             exists i :: 0 <= i < |lower| && UnansweredLabel(catalog, opts, lower[i])
    requires if opts.flavorMap.Some?
             then (UnresolvedEntry(catalog, lower, opts.flavorMap.value).Some? <==>
                   exists i :: 0 <= i < |lower| && DeadEntry(catalog, opts, lower[i]))
             else forall l :: !DeadEntry(catalog, opts, l)
    ensures UnresolvedNamedCustom(catalog, lower, opts).Some? <==>
            || (exists i :: 0 <= i < |lower| && UnansweredLabel(catalog, opts, lower[i]))
            || (exists i :: 0 <= i < |lower| && DeadEntry(catalog, opts, lower[i]))
  {
  }

  lemma DefaultIs(catalog: seq<Flavor>, opts: Options)
    ensures RepoDefaultOf(catalog, opts).None? && IsCustomDefault(opts.defaultFlavor) <==>
            opts.defaultFlavor.Some? && IsCustomName(opts.defaultFlavor.value) && !Has(catalog, opts.defaultFlavor.value)
  {
    if opts.defaultFlavor.Some? {
      ByNameHas(catalog, opts.defaultFlavor.value);
    }
  }

  lemma ReportedIs(p: Platform, catalog: seq<Flavor>, labels: seq<string>, opts: Options)
    ensures var s, named := Select(p, catalog, LowerAll(labels), opts), UnresolvedNamedCustom(catalog, LowerAll(labels), opts);
            ResolveIn(p, catalog, labels, opts).unresolvedCustom.Some? <==>
            named.Some? || (s.fallback && RepoDefaultOf(catalog, opts).None? && IsCustomDefault(opts.defaultFlavor))
  {
  }
}
