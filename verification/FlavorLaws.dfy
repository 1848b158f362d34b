/** What resolution guarantees: a skipped read changes nothing, and no custom flavor is hit silently. */
module FlavorLaws {
  import opened Text
  import opened Catalog
  import opened Flavors

  // ---- composition seen through the lookups ---------------------------------------------------

  lemma {:induction false} ByNameConcat(a: seq<Flavor>, b: seq<Flavor>, n: string)
    ensures ByName(a + b, n) == if ByName(a, n).Some? then ByName(a, n) else ByName(b, n)
  {
    if a == [] {
      assert a + b == b;
    } else {
      assert (a + b)[1..] == a[1..] + b;
      ByNameConcat(a[1..], b, n);
    }
  }

  /** Composition appends entries that all live in the custom namespaces. */
  lemma ComposeSplits(builtin: seq<Flavor>, custom: seq<Flavor>) returns (extra: seq<Flavor>)
    requires Namespaced(custom)
    ensures Compose(builtin, custom) == builtin + extra && Namespaced(extra)
  {
    var all := Compose(builtin, custom);
    extra := all[|builtin|..];
    forall i | 0 <= i < |extra|
      ensures IsCustomName(extra[i].name) && StartsWith(extra[i].routing, CUSTOM_LABEL_PREFIX)
    {
      assert extra[i] == all[|builtin| + i];
      var f :| f in custom && extra[i] == f.(custom := true);
    }
  }

  lemma NoCustomByName(extra: seq<Flavor>, n: string)
    requires Namespaced(extra) && !IsCustomName(n)
    ensures ByName(extra, n).None?
  {
  }

  lemma SameByName(builtin: seq<Flavor>, extra: seq<Flavor>, n: string)
    requires Namespaced(extra)
    requires !IsCustomName(n) || ByName(builtin, n).Some?
    ensures ByName(builtin + extra, n) == ByName(builtin, n)
  {
    ByNameConcat(builtin, extra, n);
    if !IsCustomName(n) {
      NoCustomByName(extra, n);
    }
  }

  lemma CustomRoutingIsCustom(extra: seq<Flavor>, i: nat)
    requires Namespaced(extra) && i < |extra|
    ensures IsCustomLabel(Lower(extra[i].routing))
  {
    var l := extra[i].routing;
    assert Lower(l)[..|CUSTOM_LABEL_PREFIX|] == Lower(CUSTOM_LABEL_PREFIX) == CUSTOM_LABEL_PREFIX;
    LowerIdempotent(l);
    CustomPrefixIsCustom(Lower(l));
  }

  lemma IsCustomLabelOfLower(l: string)
    ensures IsCustomLabel(Lower(l)) <==> IsCustomLabel(l)
  {
    TrimLower(l);
    LowerIdempotent(Trim(l));
  }

  ghost predicate NoCustomLabels(lower: seq<string>) {
    forall i :: 0 <= i < |lower| ==> !IsCustomLabel(lower[i])
  }

  lemma {:induction false} NoExtraMatches(p: Platform, extra: seq<Flavor>, lower: seq<string>)
    requires Namespaced(extra) && NoCustomLabels(lower)
    ensures Matches(p, extra, lower) == []
  {
    if extra != [] {
      CustomRoutingIsCustom(extra, 0);
      NoExtraMatches(p, extra[1..], lower);
    }
  }

  lemma {:induction false} MatchesConcat(p: Platform, a: seq<Flavor>, b: seq<Flavor>, lower: seq<string>)
    requires Matches(p, b, lower) == []
    ensures Matches(p, a + b, lower) == Matches(p, a, lower)
  {
    if a == [] {
      assert a + b == b;
    } else {
      assert (a + b)[1..] == a[1..] + b;
      MatchesConcat(p, a[1..], b, lower);
    }
  }

  // ---- skipping the read is sound ---------------------------------------------------------------

  ghost predicate NoCustomValues(entries: FlavorMap) {
    forall i :: 0 <= i < |entries| ==> !IsCustomName(entries[i].1)
  }

  lemma {:induction false} MapGetNotCustom(entries: FlavorMap, key: string)
    requires NoCustomValues(entries)
    ensures MapGet(entries, key).Some? ==> !IsCustomName(MapGet(entries, key).value)
    decreases |entries|
  {
    if entries != [] {
      MapGetNotCustom(entries[..|entries| - 1], key);
    }
  }

  lemma {:induction false} SameMapRule(b: seq<Flavor>, extra: seq<Flavor>, lower: seq<string>, entries: FlavorMap)
    requires Namespaced(extra) && NoCustomValues(entries)
    ensures MapRule(b + extra, lower, entries) == MapRule(b, lower, entries)
    ensures UnresolvedEntry(b + extra, lower, entries) == UnresolvedEntry(b, lower, entries)
  {
    if lower != [] {
      MapGetNotCustom(entries, lower[0]);
      var m := MapGet(entries, lower[0]);
      if m.Some? {
        SameByName(b, extra, m.value);
      }
      SameMapRule(b, extra, lower[1..], entries);
    }
  }

  lemma {:induction false} SameAdoptRule(b: seq<Flavor>, extra: seq<Flavor>, lower: seq<string>)
    requires Namespaced(extra) && ByName(b, "base").Some?
    ensures AdoptRule(b + extra, lower) == AdoptRule(b, lower)
  {
    if lower != [] {
      SameByName(b, extra, "base");
      SameAdoptRule(b, extra, lower[1..]);
    }
  }

  lemma {:induction false} NoUnresolvedLabel(catalog: seq<Flavor>, lower: seq<string>, fm: Option<FlavorMap>)
    requires NoCustomLabels(lower)
    ensures UnresolvedLabel(catalog, lower, fm).None?
  {
    if lower != [] {
      NoUnresolvedLabel(catalog, lower[1..], fm);
    }
  }

  lemma {:induction false} MapRuleInCatalog(catalog: seq<Flavor>, lower: seq<string>, entries: FlavorMap)
    ensures var m := MapRule(catalog, lower, entries); m.Some? ==> ByName(catalog, m.value.1).Some?
  {
    if lower != [] {
      MapRuleInCatalog(catalog, lower[1..], entries);
    }
  }

  lemma {:induction false} AdoptRuleInCatalog(catalog: seq<Flavor>, lower: seq<string>)
    ensures var m := AdoptRule(catalog, lower); m.Some? ==> ByName(catalog, m.value.1).Some?
  {
    if lower != [] {
      AdoptRuleInCatalog(catalog, lower[1..]);
    }
  }

  lemma {:induction false} MatchesInCatalog(p: Platform, catalog: seq<Flavor>, lower: seq<string>)
    ensures forall f :: f in Matches(p, catalog, lower) ==> f in catalog && Lower(f.routing) in lower
  {
    if catalog != [] {
      MatchesInCatalog(p, catalog[1..], lower);
      var rest := Matches(p, catalog[1..], lower);
      InsertHolds(p, catalog[0], rest);
    }
  }

  lemma {:induction false} InsertHolds(p: Platform, f: Flavor, s: seq<Flavor>)
    ensures forall g :: g in Insert(p, f, s) <==> g == f || g in s
  {
    if s != [] && Ranks(p, s[0], f) {
      InsertHolds(p, f, s[1..]);
      assert s == [s[0]] + s[1..];
    }
  }

  /** The selected flavor is always one the catalog has. */
  lemma SelectInCatalog(p: Platform, catalog: seq<Flavor>, lower: seq<string>, opts: Options)
    requires ByName(catalog, "base").Some?
    ensures ByName(catalog, Select(p, catalog, lower, opts).flavor).Some?
  {
    if opts.flavorMap.Some? {
      MapRuleInCatalog(catalog, lower, opts.flavorMap.value);
    }
    MatchesInCatalog(p, catalog, lower);
    AdoptRuleInCatalog(catalog, lower);
    var matches := Matches(p, catalog, lower);
    if matches != [] {
      assert matches[0] in catalog;
    }
  }

  /** Options that name no custom flavor. */
  ghost predicate NamesNoCustom(opts: Options) {
    && (opts.flavorMap.Some? ==> NoCustomValues(opts.flavorMap.value))
    && !IsCustomDefault(opts.defaultFlavor)
  }

  lemma SameDefault(b: seq<Flavor>, extra: seq<Flavor>, opts: Options)
    requires Namespaced(extra) && NamesNoCustom(opts)
    ensures RepoDefaultOf(b + extra, opts) == RepoDefaultOf(b, opts)
  {
    if opts.defaultFlavor.Some? {
      SameByName(b, extra, opts.defaultFlavor.value);
    }
  }

  lemma SameUnresolved(b: seq<Flavor>, extra: seq<Flavor>, lower: seq<string>, opts: Options)
    requires Namespaced(extra) && NoCustomLabels(lower) && NamesNoCustom(opts)
    ensures UnresolvedNamedCustom(b + extra, lower, opts) == UnresolvedNamedCustom(b, lower, opts)
  {
    NoUnresolvedLabel(b, lower, opts.flavorMap);
    NoUnresolvedLabel(b + extra, lower, opts.flavorMap);
    if opts.flavorMap.Some? {
      SameMapRule(b, extra, lower, opts.flavorMap.value);
    }
  }

  lemma SameMatches(p: Platform, b: seq<Flavor>, extra: seq<Flavor>, lower: seq<string>)
    requires Namespaced(extra) && NoCustomLabels(lower)
    ensures Matches(p, b + extra, lower) == Matches(p, b, lower)
  {
    NoExtraMatches(p, extra, lower);
    MatchesConcat(p, b, extra, lower);
  }

  lemma SameSelect(p: Platform, b: seq<Flavor>, extra: seq<Flavor>, lower: seq<string>, opts: Options)
    requires ByName(b, "base").Some? && Namespaced(extra) && NoCustomLabels(lower) && NamesNoCustom(opts)
    ensures Select(p, b + extra, lower, opts) == Select(p, b, lower, opts)
  {
    var all := b + extra;
    if opts.flavorMap.Some? {
      SameMapRule(b, extra, lower, opts.flavorMap.value);
    }
    SameMatches(p, b, extra, lower);
    SameAdoptRule(b, extra, lower);
    SameDefault(b, extra, opts);
  }

  /** With no custom flavor named, entries appended to the catalog are invisible to resolution. */
  lemma SameResolution(p: Platform, extra: seq<Flavor>, labels: seq<string>, opts: Options)
    requires ByName(p.builtin, "base").Some? && Namespaced(extra)
    requires NoCustomLabels(LowerAll(labels)) && NamesNoCustom(opts)
    ensures ResolveIn(p, p.builtin + extra, labels, opts) == ResolveIn(p, p.builtin, labels, opts)
  {
    var lower := LowerAll(labels);
    var all := p.builtin + extra;
    SameSelect(p, p.builtin, extra, lower, opts);
    SameDefault(p.builtin, extra, opts);
    SameUnresolved(p.builtin, extra, lower, opts);
    SelectInCatalog(p, p.builtin, lower, opts);
    SameByName(p.builtin, extra, Select(p, p.builtin, lower, opts).flavor);
  }

  /** The rules read custom flavors only through the catalog. */
  lemma CustomFieldIsUnread(p: Platform, catalog: seq<Flavor>, labels: seq<string>, opts: Options)
    ensures ResolveIn(p, catalog, labels, opts.(custom := [])) == ResolveIn(p, catalog, labels, opts)
  {
    var lower, bare := LowerAll(labels), opts.(custom := []);
    SelectUnread(p, catalog, lower, opts, bare);
    UnresolvedUnread(catalog, lower, opts, bare);
    DefaultUnread(catalog, opts, bare);
  }

  lemma SelectUnread(p: Platform, catalog: seq<Flavor>, lower: seq<string>, opts: Options, bare: Options)
    requires bare == opts.(custom := [])
    ensures Select(p, catalog, lower, bare) == Select(p, catalog, lower, opts)
  {
  }

  lemma UnresolvedUnread(catalog: seq<Flavor>, lower: seq<string>, opts: Options, bare: Options)
    requires bare == opts.(custom := [])
    ensures UnresolvedNamedCustom(catalog, lower, bare) == UnresolvedNamedCustom(catalog, lower, opts)
  {
  }

  lemma DefaultUnread(catalog: seq<Flavor>, opts: Options, bare: Options)
    requires bare == opts.(custom := [])
    ensures RepoDefaultOf(catalog, bare) == RepoDefaultOf(catalog, opts)
  {
  }

  /**
   * Skipping the store read is sound: for a job the gate says needs no custom flavors, every set of
   * custom flavors resolves it to the same flavor, reason, replacement and refusal as none at all.
   */
  lemma SkippedReadChangesNothing(p: Platform, labels: seq<string>, opts: Options)
    requires CatalogOk(p.builtin) && Namespaced(opts.custom)
    requires !NeedsCustomFlavors(labels, opts.flavorMap, opts.defaultFlavor)
    ensures ResolveFlavor(p, labels, opts) == ResolveFlavor(p, labels, opts.(custom := []))
  {
    var extra := ComposeSplits(p.builtin, opts.custom);
    var lower := LowerAll(labels);
    forall i | 0 <= i < |lower| ensures !IsCustomLabel(lower[i]) {
      IsCustomLabelOfLower(labels[i]);
    }
    SameResolution(p, extra, labels, opts);
    CustomFieldIsUnread(p, p.builtin, labels, opts);
  }

  // ---- what a resolution names --------------------------------------------------------------------

  /**
   * Resolution always names a flavor of the composed catalog, and an upgrade replaces the selection
   * by a built-in that has the capability, never by a custom flavor.
   */
  lemma ResolutionNamesCatalogFlavor(p: Platform, labels: seq<string>, opts: Options)
    requires CatalogOk(p.builtin)
    ensures var r, catalog := ResolveFlavor(p, labels, opts), Compose(p.builtin, opts.custom);
            && ByName(catalog, r.flavor).Some?
            && (r.replaced.Some? ==>
                 ByName(catalog, r.replaced.value).Some? &&
                 exists f :: f in p.builtin && f.name == r.flavor && "docker" in f.capabilities && !IsCustomName(f.name))
  {
    var catalog, lower := Compose(p.builtin, opts.custom), LowerAll(labels);
    ByNameConcat(p.builtin, catalog[|p.builtin|..], "base");
    assert catalog == p.builtin + catalog[|p.builtin|..];
    SelectInCatalog(p, catalog, lower, opts);
    var s := Select(p, catalog, lower, opts);
    var r := Upgrade(p, catalog, s, opts.needsDocker);
    if r.replaced.Some? {
      var up := SmallestWith(p.builtin, "docker");
      var i :| 0 <= i < |p.builtin| && p.builtin[i] == up.value;
      assert catalog[i] == up.value;
    }
  }

  /** The flavor the rules selected, before any upgrade replaced it. */
  function Selected(r: Resolution): string {
    if r.replaced.Some? then r.replaced.value else r.flavor
  }

  lemma {:induction false} HeadIsLongest(p: Platform, catalog: seq<Flavor>, lower: seq<string>, i: nat)
    requires i < |catalog| && Lower(catalog[i].routing) in lower
    ensures var m := Matches(p, catalog, lower); m != [] && |m[0].routing| >= |catalog[i].routing|
    decreases |catalog|
  {
    if i > 0 {
      HeadIsLongest(p, catalog[1..], lower, i - 1);
    }
  }

  /** The map rule answers with the entry of one of the job's labels. */
  lemma {:induction false} MapRuleNames(catalog: seq<Flavor>, lower: seq<string>, entries: FlavorMap)
    requires MapRule(catalog, lower, entries).Some?
    ensures var m := MapRule(catalog, lower, entries).value; m.0 in lower && MapGet(entries, m.0) == Some(m.1)
  {
    var m := MapGet(entries, lower[0]);
    if !(m.Some? && m.value != "" && ByName(catalog, m.value).Some?) {
      MapRuleNames(catalog, lower[1..], entries);
    }
  }

  /** It is silent only when no label of the job is mapped to a flavor of the catalog. */
  lemma {:induction false} MapRuleSilent(catalog: seq<Flavor>, lower: seq<string>, entries: FlavorMap, k: nat)
    requires MapRule(catalog, lower, entries).None? && k < |lower|
    requires forall f :: f in catalog ==> f.name != ""
    ensures !Remapped(catalog, Some(entries), lower[k])
  {
    if k > 0 {
      MapRuleSilent(catalog, lower[1..], entries, k - 1);
    }
  }

  lemma CatalogNamesNonEmpty(b: seq<Flavor>, extra: seq<Flavor>)
    requires CatalogOk(b) && Namespaced(extra)
    ensures forall f :: f in b + extra ==> f.name != ""
  {
    forall f | f in b + extra ensures f.name != "" {
      if f in b {
        var i :| 0 <= i < |b| && b[i] == f;
      } else {
        var j :| 0 <= j < |extra| && extra[j] == f;
      }
    }
  }

  /** What the repository's map says of one of the job's labels. */
  predicate MappedTo(lower: seq<string>, fm: Option<FlavorMap>, flavor: string) {
    fm.Some? && exists i :: 0 <= i < |lower| && MapGet(fm.value, lower[i]) == Some(flavor)
  }

  /**
   * No silent substitution: when a job names a custom label and resolution reports nothing
   * unresolved, the selected flavor is a custom one or the one the repository's own map gives for a
   * label of the job. A fall-through to a built-in image is always reported.
   */
  lemma NamedCustomIsNeverDroppedSilently(p: Platform, labels: seq<string>, opts: Options, k: nat)
    requires CatalogOk(p.builtin) && Namespaced(opts.custom)
    requires k < |labels| && IsCustomLabel(labels[k])
    requires ResolveFlavor(p, labels, opts).unresolvedCustom.None?
    ensures var flavor := Selected(ResolveFlavor(p, labels, opts));
            IsCustomName(flavor) || MappedTo(LowerAll(labels), opts.flavorMap, flavor)
  {
    var catalog, lower := Compose(p.builtin, opts.custom), LowerAll(labels);
    SelectedIsSelect(p, labels, opts);
    if opts.flavorMap.Some? && MapRule(catalog, lower, opts.flavorMap.value).Some? {
      MapRuleNames(catalog, lower, opts.flavorMap.value);
    } else {
      var extra := ComposeSplits(p.builtin, opts.custom);
      IsCustomLabelOfLower(labels[k]);
      if opts.flavorMap.Some? {
        CatalogNamesNonEmpty(p.builtin, extra);
        MapRuleSilent(catalog, lower, opts.flavorMap.value, k);
      }
      ResolvedIsAnswered(catalog, lower, opts, k);
      HeadIsCustom(p, p.builtin, extra, lower, lower[k]);
    }
  }

  /** An upgrade remembers what the rules selected. */
  lemma SelectedIsSelect(p: Platform, labels: seq<string>, opts: Options)
    ensures Selected(ResolveFlavor(p, labels, opts)) ==
            Select(p, Compose(p.builtin, opts.custom), LowerAll(labels), opts).flavor
    ensures ResolveFlavor(p, labels, opts).unresolvedCustom.None? ==>
            UnresolvedNamedCustom(Compose(p.builtin, opts.custom), LowerAll(labels), opts).None?
  {
  }

  lemma ResolvedIsAnswered(catalog: seq<Flavor>, lower: seq<string>, opts: Options, k: nat)
    requires UnresolvedNamedCustom(catalog, lower, opts).None? && k < |lower| && IsCustomLabel(lower[k])
    requires !Remapped(catalog, opts.flavorMap, lower[k])
    ensures CatalogHasLabel(catalog, lower[k])
  {
    assert UnresolvedLabel(catalog, lower, opts.flavorMap).None?;
  }

  /** A flavor whose label is a custom one has a label at least as long as the prefix. */
  lemma CustomRoutingIsLong(f: Flavor, l: string)
    requires Lower(f.routing) == l && IsCustomLabel(l)
    ensures |f.routing| >= |CUSTOM_LABEL_PREFIX|
  {
    var lo, hi := TrimMargins(l);
  }

  lemma LongMatchIsCustom(b: seq<Flavor>, extra: seq<Flavor>, head: Flavor)
    requires CatalogOk(b) && Namespaced(extra) && head in b + extra && |head.routing| >= |CUSTOM_LABEL_PREFIX|
    ensures IsCustomName(head.name)
  {
    var catalog := b + extra;
    var j :| 0 <= j < |catalog| && catalog[j] == head;
    assert forall t :: 0 <= t < |b| ==> catalog[t] == b[t];
    assert head == extra[j - |b|];
  }

  lemma HeadIsCustom(p: Platform, b: seq<Flavor>, extra: seq<Flavor>, lower: seq<string>, l: string)
    requires CatalogOk(b) && Namespaced(extra)
    requires l in lower && IsCustomLabel(l) && CatalogHasLabel(b + extra, l)
    ensures var m := Matches(p, b + extra, lower); m != [] && IsCustomName(m[0].name)
  {
    var catalog := b + extra;
    var i :| 0 <= i < |catalog| && Lower(catalog[i].routing) == l;
    CustomRoutingIsLong(catalog[i], l);
    HeadIsLongest(p, catalog, lower, i);
    MatchesInCatalog(p, catalog, lower);
    LongMatchIsCustom(b, extra, Matches(p, catalog, lower)[0]);
  }

  // ---- catalog order is irrelevant ------------------------------------------------------------------

  lemma {:induction false} InsertCommutes(p: Platform, a: Flavor, b: Flavor, s: seq<Flavor>)
    requires StrictTotal(p.before) && a.name != b.name
    ensures Insert(p, a, Insert(p, b, s)) == Insert(p, b, Insert(p, a, s))
  {
    assert p.before(a.name, b.name) || p.before(b.name, a.name);
    if s != [] {
      var g := s[0];
      if Ranks(p, g, a) && Ranks(p, g, b) {
        InsertCommutes(p, a, b, s[1..]);
      }
    }
  }

  lemma MatchesCons(p: Platform, y: Flavor, rest: seq<Flavor>, lower: seq<string>)
    ensures Matches(p, [y] + rest, lower) ==
            if HasLower(lower, y) then Insert(p, y, Matches(p, rest, lower)) else Matches(p, rest, lower)
  {
    assert ([y] + rest)[1..] == rest;
  }

  lemma {:induction false} MatchesMoveFront(p: Platform, x: Flavor, a: seq<Flavor>, b: seq<Flavor>, lower: seq<string>)
    requires StrictTotal(p.before)
    requires forall f :: f in a ==> f.name != x.name
    ensures Matches(p, a + [x] + b, lower) == Matches(p, [x] + (a + b), lower)
  {
    if a == [] {
      assert a + [x] + b == [x] + (a + b);
    } else {
      var y, rest := a[0], a[1..];
      assert a == [y] + rest && y in a;
      MatchesMoveFront(p, x, rest, b, lower);
      assert a + [x] + b == [y] + (rest + [x] + b) && a + b == [y] + (rest + b);
      MatchesCons(p, y, rest + [x] + b, lower);
      MatchesCons(p, x, rest + b, lower);
      MatchesCons(p, x, a + b, lower);
      MatchesCons(p, y, rest + b, lower);
      InsertCommutes(p, x, y, Matches(p, rest + b, lower));
    }
  }

  /** Two listings of the same flavors. */
  ghost predicate SameFlavors(c: seq<Flavor>, d: seq<Flavor>) {
    |c| == |d| && forall f :: f in c <==> f in d
  }

  lemma DistinctWithout(a: seq<Flavor>, x: Flavor, b: seq<Flavor>)
    requires DistinctNames(a + [x] + b)
    ensures DistinctNames(a + b) && forall f :: f in a || f in b ==> f.name != x.name
  {
    var d := a + [x] + b;
    assert forall i :: 0 <= i < |a| ==> d[i] == a[i];
    assert d[|a|] == x;
    assert forall i :: 0 <= i < |b| ==> d[|a| + 1 + i] == b[i];
    forall i, j | 0 <= i < j < |a + b| ensures (a + b)[i].name != (a + b)[j].name {
      var i', j' := if i < |a| then i else i + 1, if j < |a| then j else j + 1;
      assert (a + b)[i] == d[i'] && (a + b)[j] == d[j'];
    }
  }

  /** Taking the same flavor out of two listings of one set leaves two listings of one set. */
  lemma SameWithout(c: seq<Flavor>, a: seq<Flavor>, b: seq<Flavor>)
    requires c != [] && DistinctNames(c) && DistinctNames(a + [c[0]] + b) && SameFlavors(c, a + [c[0]] + b)
    ensures SameFlavors(c[1..], a + b)
  {
    var x, d := c[0], a + [c[0]] + b;
    DistinctWithout(a, x, b);
    forall f ensures f in c[1..] <==> f in a + b {
      assert c == [x] + c[1..];
      assert f in c <==> f == x || f in c[1..];
      assert f in d <==> f == x || f in a + b;
      assert x !in c[1..];
    }
  }

  /**
   * Which label wins, and which ties are reported, depends on the set of flavors and not on the
   * order the catalog lists them in.
   */
  lemma {:induction false} CatalogOrderIsIrrelevant(p: Platform, c: seq<Flavor>, d: seq<Flavor>, lower: seq<string>)
    requires StrictTotal(p.before) && DistinctNames(c) && DistinctNames(d) && SameFlavors(c, d)
    ensures Matches(p, c, lower) == Matches(p, d, lower)
    decreases |c|
  {
    if c != [] {
      assert c[0] in d;
      var k :| 0 <= k < |d| && d[k] == c[0];
      var a, b := d[..k], d[k + 1..];
      assert d == a + [c[0]] + b;
      DistinctWithout(a, c[0], b);
      SameWithout(c, a, b);
      MatchesMoveFront(p, c[0], a, b, lower);
      CatalogOrderIsIrrelevant(p, c[1..], a + b, lower);
      assert ([c[0]] + (a + b))[1..] == a + b;
    }
  }
}
