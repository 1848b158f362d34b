/** `runs-on` to flavor resolution: prioritised rules, signal upgrade, and the read-skipping gate. */
module Flavors {
  import opened Text
  import opened Adopt
  import opened Catalog

  /** The compiled-in catalog and the locale order its ties are broken by. */
  datatype Platform = Platform(builtin: seq<Flavor>, before: (string, string) -> bool)

  ghost predicate StrictTotal(before: (string, string) -> bool) {
    && (forall a :: !before(a, a))
    && (forall a, b :: a != b ==> before(a, b) || before(b, a))
    && (forall a, b, c :: before(a, b) && before(b, c) ==> before(a, c))
  }

  /** A FlavorMap in entry order; a key repeated up to case is decided by its last entry. */
  type FlavorMap = seq<(string, string)>

  datatype Options = Options(
    flavorMap: Option<FlavorMap>,
    custom: seq<Flavor>,
    defaultFlavor: Option<string>,
    needsDocker: bool,
    mode: Option<RepoMode>)

  datatype Reason =
    | MapOverride(key: string, flavor: string)
    | ExplicitLabelMatch(routing: string, ambiguousWith: seq<string>)
    | AdoptLabel(key: string, flavor: string)
    | RepoDefault(flavor: string)
    | BaseFallback
    | Upgraded(from: Reason, to: string, lost: seq<string>)

  datatype Resolution = Resolution(
    flavor: string, reason: Reason, replaced: Option<string>, unresolvedCustom: Option<string>)

  function MapGet(entries: FlavorMap, key: string): Option<string> {
    if entries == [] then None
    else
      var e := entries[|entries| - 1];
      if Lower(e.0) == key then Some(e.1) else MapGet(entries[..|entries| - 1], key)
  }

  // ---- the rules ------------------------------------------------------------------------------

  /** Rule 1: the first label mapped to a flavor the catalog has. */
  function MapRule(catalog: seq<Flavor>, lower: seq<string>, entries: FlavorMap): Option<(string, string)> {
    if lower == [] then None
    else
      var m := MapGet(entries, lower[0]);
      if m.Some? && m.value != "" && ByName(catalog, m.value).Some? then Some((lower[0], m.value))
      else MapRule(catalog, lower[1..], entries)
  }

  /** Longer routing labels rank first; equally long ones by flavor name. */
  predicate Ranks(p: Platform, a: Flavor, b: Flavor) {
    |a.routing| > |b.routing| || (|a.routing| == |b.routing| && p.before(a.name, b.name))
  }

  function Insert(p: Platform, f: Flavor, s: seq<Flavor>): (r: seq<Flavor>)
    ensures |r| == |s| + 1
  {
    if s == [] || !Ranks(p, s[0], f) then [f] + s else [s[0]] + Insert(p, f, s[1..])
  }

  /** Catalog entries whose label the job carries, best first. */
  function Matches(p: Platform, catalog: seq<Flavor>, lower: seq<string>): seq<Flavor> {
    if catalog == [] then []
    else if Lower(catalog[0].routing) in lower then Insert(p, catalog[0], Matches(p, catalog[1..], lower))
    else Matches(p, catalog[1..], lower)
  }

  function SameLength(s: seq<Flavor>, n: nat): seq<string> {
    if s == [] then [] else (if |s[0].routing| == n then [s[0].routing] else []) + SameLength(s[1..], n)
  }

  /** Rule 3: the first standard label, in adopt mode. */
  function AdoptRule(catalog: seq<Flavor>, lower: seq<string>): Option<(string, string)> {
    if lower == [] then None
    else
      var m := AdoptFlavorForLabel(lower[0]);
      if m.Some? && ByName(catalog, m.value).Some? then Some((lower[0], m.value))
      else AdoptRule(catalog, lower[1..])
  }

  datatype Selection = Selection(flavor: string, reason: Reason, fallback: bool)

  /** The winner before any signal upgrade, and whether it is the fallback. */
  function Select(p: Platform, catalog: seq<Flavor>, lower: seq<string>, opts: Options): Selection {
    var mapped := if opts.flavorMap.Some? then MapRule(catalog, lower, opts.flavorMap.value) else None;
    if mapped.Some? then Selection(mapped.value.1, MapOverride(mapped.value.0, mapped.value.1), false)
    else
      var matches := Matches(p, catalog, lower);
      if matches != [] then
        var def := matches[0];
        Selection(def.name, ExplicitLabelMatch(def.routing, SameLength(matches[1..], |def.routing|)), false)
      else
        var adopt := if opts.mode == Some(AdoptMode) then AdoptRule(catalog, lower) else None;
        if adopt.Some? then Selection(adopt.value.1, AdoptLabel(adopt.value.0, adopt.value.1), false)
        else
          var def := RepoDefaultOf(catalog, opts);
          if def.Some? then Selection(def.value, RepoDefault(def.value), true)
          else Selection("base", BaseFallback, true)
  }

  function RepoDefaultOf(catalog: seq<Flavor>, opts: Options): Option<string> {
    if opts.defaultFlavor.Some? && opts.defaultFlavor.value != "" && ByName(catalog, opts.defaultFlavor.value).Some?
    then opts.defaultFlavor
    else None
  }

  // ---- the signal upgrade -----------------------------------------------------------------------

  predicate Smaller(a: Flavor, b: Flavor) {
    a.vcpu < b.vcpu || (a.vcpu == b.vcpu && a.memoryMb < b.memoryMb)
  }

  /** The smallest built-in with a capability; the earlier one on a tie. */
  function SmallestWith(builtin: seq<Flavor>, cap: string): (r: Option<Flavor>)
    ensures r.Some? ==> r.value in builtin && cap in r.value.capabilities
    ensures r.Some? ==> forall f :: f in builtin && cap in f.capabilities ==> !Smaller(f, r.value)
    ensures r.None? ==> forall f :: f in builtin ==> cap !in f.capabilities
  {
    if builtin == [] then None
    else
      var rest := SmallestWith(builtin[1..], cap);
      if cap !in builtin[0].capabilities then rest
      else if rest.Some? && Smaller(rest.value, builtin[0]) then rest
      else Some(builtin[0])
  }

  function Lost(have: seq<string>, kept: seq<string>): seq<string> {
    if have == [] then [] else (if have[0] in kept then [] else [have[0]]) + Lost(have[1..], kept)
  }

  function Upgrade(p: Platform, catalog: seq<Flavor>, s: Selection, needsDocker: bool): Resolution {
    var same := Resolution(s.flavor, s.reason, None, None);
    var def := ByName(catalog, s.flavor);
    var up := SmallestWith(p.builtin, "docker");
    if !needsDocker || (def.Some? && "docker" in def.value.capabilities) || up.None? then same
    else
      var lost := if def.Some? then Lost(def.value.capabilities, up.value.capabilities) else [];
      Resolution(up.value.name, Upgraded(s.reason, up.value.name, lost), Some(s.flavor), None)
  }

  // ---- custom flavors the catalog does not have ---------------------------------------------------

  predicate CatalogHasLabel(catalog: seq<Flavor>, l: string) {
    exists i :: 0 <= i < |catalog| && Lower(catalog[i].routing) == l
  }

  predicate Remapped(catalog: seq<Flavor>, fm: Option<FlavorMap>, l: string) {
    fm.Some? && var m := MapGet(fm.value, l); m.Some? && ByName(catalog, m.value).Some?
  }

  /** A custom label on the job that nothing in the catalog or the FlavorMap answers. */
  function UnresolvedLabel(catalog: seq<Flavor>, lower: seq<string>, fm: Option<FlavorMap>): (r: Option<string>)
    ensures r.None? ==> forall i :: 0 <= i < |lower| && IsCustomLabel(lower[i]) ==>
                          CatalogHasLabel(catalog, lower[i]) || Remapped(catalog, fm, lower[i])
  {
    if lower == [] then None
    else if IsCustomLabel(lower[0]) && !CatalogHasLabel(catalog, lower[0]) && !Remapped(catalog, fm, lower[0])
    then Some(lower[0])
    else UnresolvedLabel(catalog, lower[1..], fm)
  }

  /** A FlavorMap entry for one of the job's labels that names a custom flavor the catalog lacks. */
  function UnresolvedEntry(catalog: seq<Flavor>, lower: seq<string>, entries: FlavorMap): Option<string> {
    if lower == [] then None
    else
      var m := MapGet(entries, lower[0]);
      if m.Some? && m.value != "" && IsCustomName(m.value) && ByName(catalog, m.value).None? then m
      else UnresolvedEntry(catalog, lower[1..], entries)
  }

  function UnresolvedNamedCustom(catalog: seq<Flavor>, lower: seq<string>, opts: Options): Option<string> {
    var byLabel := UnresolvedLabel(catalog, lower, opts.flavorMap);
    if byLabel.Some? || opts.flavorMap.None? then byLabel
    else UnresolvedEntry(catalog, lower, opts.flavorMap.value)
  }

  predicate IsCustomDefault(d: Option<string>) {
    d.Some? && IsCustomName(d.value)
  }

  function ResolveIn(p: Platform, catalog: seq<Flavor>, labels: seq<string>, opts: Options): Resolution {
    var lower := LowerAll(labels);
    var s := Select(p, catalog, lower, opts);
    var named := UnresolvedNamedCustom(catalog, lower, opts);
    var unresolved :=
      if named.Some? || !s.fallback then named
      else if RepoDefaultOf(catalog, opts).None? && IsCustomDefault(opts.defaultFlavor) then opts.defaultFlavor
      else None;
    Upgrade(p, catalog, s, opts.needsDocker).(unresolvedCustom := unresolved)
  }

  function ResolveFlavor(p: Platform, labels: seq<string>, opts: Options): Resolution {
    ResolveIn(p, Compose(p.builtin, opts.custom), labels, opts)
  }

  /** Whether resolving this job could need the installation's custom flavors at all. */
  predicate NeedsCustomFlavors(labels: seq<string>, flavorMap: Option<FlavorMap>, defaultFlavor: Option<string>) {
    || (exists i :: 0 <= i < |labels| && IsCustomLabel(labels[i]))
    || (flavorMap.Some? && exists i :: 0 <= i < |flavorMap.value| && IsCustomName(flavorMap.value[i].1))
    || IsCustomDefault(defaultFlavor)
  }
}
