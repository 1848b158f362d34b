/**
 * A report specification: validated once, pinned by a URL, and read back from it.
 *
 * The catalog's vocabulary and the clock's ISO rendering are parameters. Names a comma list carries
 * hold no comma and no margin of white space, and an instant read from its own rendering is itself.
 */
module ReportSpec {
  import opened Text
  import opened CommaList

  const MAX_FILTER_VALUES: nat := 50
  const MAX_SAFE_INTEGER: nat := 9007199254740991
  const HOUR_MS: int := 3600000
  const DAY_MS: int := 86400000

  datatype Preset = P24h | P7d | P30d | P90d

  const RANGE_PRESETS := [P24h, P7d, P30d, P90d]

  function PresetHours(p: Preset): nat {
    match p
    case P24h => 24
    case P7d => 168
    case P30d => 720
    case P90d => 2160
  }

  function PresetName(p: Preset): string {
    match p
    case P24h => "24h"
    case P7d => "7d"
    case P30d => "30d"
    case P90d => "90d"
  }

  function PresetOf(s: string): Option<Preset> {
    if s == "24h" then Some(P24h)
    else if s == "7d" then Some(P7d)
    else if s == "30d" then Some(P30d)
    else if s == "90d" then Some(P90d)
    else None
  }

  function Servable(presets: seq<Preset>, maxDays: nat): seq<Preset> {
    if presets == [] then []
    else (if PresetHours(presets[0]) <= 24 * maxDays then [presets[0]] else []) + Servable(presets[1..], maxDays)
  }

  /** Presets retention can serve; never none. */
  function AvailablePresets(maxDays: nat): (presets: seq<Preset>)
    ensures presets != []
  {
    var allowed := Servable(RANGE_PRESETS, maxDays);
    if allowed != [] then allowed else [RANGE_PRESETS[0]]
  }

  function DefaultPreset(presets: seq<Preset>): (p: Preset)
    requires presets != []
    ensures p in presets
  {
    if P7d in presets then P7d else presets[|presets| - 1]
  }

  datatype Vocabulary = Vocabulary(
    metrics: set<string>, dimensions: set<string>, charts: set<string>, flavors: set<string>, statuses: set<string>,
    defaultChart: string -> string)

  datatype Clock = Clock(iso: int -> string, parse: string -> Option<int>)

  ghost predicate VocabularyOk(v: Vocabulary) {
    && (forall f :: f in v.flavors ==> Carried(f)) && (forall s :: s in v.statuses ==> Carried(s))
    && forall m :: m in v.metrics ==> v.defaultChart(m) in v.charts
  }

  ghost predicate ClockOk(c: Clock) {
    forall t :: c.parse(c.iso(t)) == Some(t)
  }

  /** The environment a spec is validated in. */
  datatype Env = Env(vocabulary: Vocabulary, clock: Clock, maxDays: nat, now: int)

  /** Absent filters are empty lists. */
  datatype Spec = Spec(
    metric: string, dimension: string, chart: string, repoIds: seq<nat>, flavors: seq<string>, statuses: seq<string>,
    from: string, to: string, preset: Option<Preset>)

  /** What the picker or a model submits; a repo id that is not a whole number is `None`. */
  datatype Raw = Raw(
    metric: Option<string>, dimension: Option<string>, chart: Option<string>, preset: Option<string>,
    from: Option<string>, to: Option<string>,
    repoIds: Option<seq<Option<nat>>>, flavors: Option<seq<string>>, statuses: Option<seq<string>>)

  datatype WindowOf = WindowOf(from: string, to: string, preset: Option<Preset>)

  function PresetWindow(p: Preset, env: Env): WindowOf {
    WindowOf(env.clock.iso(env.now - PresetHours(p) * HOUR_MS), env.clock.iso(env.now), Some(p))
  }

  function ParseIso(raw: Option<string>, clock: Clock): Option<int> {
    if raw.None? then None else clock.parse(raw.value)
  }

  /** The named preset, refused when unknown or wider than retention; absent is not refused. */
  function ReadPreset(raw: Option<string>, maxDays: nat): Option<Option<Preset>> {
    if raw.None? then Some(None)
    else if PresetOf(raw.value).None? || PresetOf(raw.value).value !in AvailablePresets(maxDays) then None
    else Some(PresetOf(raw.value))
  }

  /** An explicit window wins over a preset; it may be neither wider nor older than retention. */
  function ReadWindow(raw: Raw, env: Env): Option<WindowOf> {
    var preset := ReadPreset(raw.preset, env.maxDays);
    if preset.None? then None
    else if raw.from.None? && raw.to.None? then
      Some(PresetWindow(if preset.value.Some? then preset.value.value else DefaultPreset(AvailablePresets(env.maxDays)), env))
    else
      var from, to := ParseIso(raw.from, env.clock), ParseIso(raw.to, env.clock);
      if from.None? || to.None? then None
      else if to.value <= from.value then None
      else if to.value - from.value > env.maxDays * DAY_MS then None
      else if from.value < env.now - env.maxDays * DAY_MS then None
      else Some(WindowOf(env.clock.iso(from.value), env.clock.iso(to.value), None))
  }

  predicate RepoIdOk(id: Option<nat>) {
    id.Some? && 0 < id.value <= MAX_SAFE_INTEGER
  }

  function Values(ids: seq<Option<nat>>): (r: seq<nat>)
    requires forall i :: 0 <= i < |ids| ==> RepoIdOk(ids[i])
    ensures |r| == |ids| && forall i :: 0 <= i < |ids| ==> Some(r[i]) == ids[i]
  {
    seq(|ids|, i requires 0 <= i < |ids| && RepoIdOk(ids[i]) => ids[i].value)
  }

  function ReadRepoIds(ids: Option<seq<Option<nat>>>): Option<seq<nat>> {
    if ids.None? then Some([])
    else if |ids.value| > MAX_FILTER_VALUES then None
    else if exists i :: 0 <= i < |ids.value| && !RepoIdOk(ids.value[i]) then None
    else Some(Values(ids.value))
  }

  function ReadNames(names: Option<seq<string>>, known: set<string>, most: Option<nat>): Option<seq<string>> {
    if names.None? then Some([])
    else if most.Some? && |names.value| > most.value then None
    else if exists i :: 0 <= i < |names.value| && names.value[i] !in known then None
    else Some(names.value)
  }

  function ReadName(name: Option<string>, known: set<string>, fallback: Option<string>): Option<string> {
    if name.None? then fallback else if name.value in known then name else None
  }

  /** The spec a raw input resolves to; nothing is coerced or clamped. */
  function Resolve(raw: Raw, env: Env): Option<Spec> {
    var v := env.vocabulary;
    var metric := ReadName(raw.metric, v.metrics, None);
    var dimension := ReadName(raw.dimension, v.dimensions, Some("none"));
    var chart := ReadName(raw.chart, v.charts, if metric.Some? then Some(v.defaultChart(metric.value)) else None);
    var window := ReadWindow(raw, env);
    var repoIds := ReadRepoIds(raw.repoIds);
    var flavors := ReadNames(raw.flavors, v.flavors, Some(MAX_FILTER_VALUES));
    var statuses := ReadNames(raw.statuses, v.statuses, None);
    if metric.None? || dimension.None? || chart.None? || window.None? || repoIds.None? || flavors.None? || statuses.None? then None
    else Some(Spec(metric.value, dimension.value, chart.value, repoIds.value, flavors.value, statuses.value,
                   window.value.from, window.value.to, window.value.preset))
  }

  /** The validator: every fault is noted, and the spec is refused if there was any. */
  method ValidateReportSpec(raw: Raw, env: Env) returns (r: Option<Spec>)
    ensures r == Resolve(raw, env)
  {
    var v, errors := env.vocabulary, 0;
    if raw.metric.None? || raw.metric.value !in v.metrics {
      errors := errors + 1;
    }
    var dimension := if raw.dimension.None? then "none" else raw.dimension.value;
    if raw.dimension.Some? && dimension !in v.dimensions {
      errors := errors + 1;
    }
    var presets := AvailablePresets(env.maxDays);
    var preset: Option<Preset> := None;
    if raw.preset.Some? {
      preset := PresetOf(raw.preset.value);
      if preset.None? || preset.value !in presets {
        errors := errors + 1;
      }
    }
    var window := WindowOf("", "", None);
    if raw.from.Some? || raw.to.Some? {
      var from, to := ParseIso(raw.from, env.clock), ParseIso(raw.to, env.clock);
      if from.None? || to.None? {
        errors := errors + 1;
      } else {
        var horizon := env.now - env.maxDays * DAY_MS;
        if to.value <= from.value || to.value - from.value > env.maxDays * DAY_MS || from.value < horizon {
          errors := errors + 1;
        } else {
          window := WindowOf(env.clock.iso(from.value), env.clock.iso(to.value), None);
        }
      }
    } else {
      window := PresetWindow(if preset.Some? then preset.value else DefaultPreset(presets), env);
    }
    var repoIds := ReadRepoIds(raw.repoIds);
    var flavors := ReadNames(raw.flavors, v.flavors, Some(MAX_FILTER_VALUES));
    var statuses := ReadNames(raw.statuses, v.statuses, None);
    if repoIds.None? || flavors.None? || statuses.None? {
      errors := errors + 1;
    }
    var chart := "";
    if raw.chart.Some? {
      chart := raw.chart.value;
      if chart !in v.charts {
        errors := errors + 1;
      }
    } else if raw.metric.Some? && raw.metric.value in v.metrics {
      chart := v.defaultChart(raw.metric.value);
    }
    if errors > 0 {
      return None;
    }
    return Some(Spec(raw.metric.value, dimension, chart, repoIds.value, flavors.value, statuses.value,
                     window.from, window.to, window.preset));
  }

  // ---- the URL ----------------------------------------------------------------------------------------

  datatype Field = Metric | Dimension | Chart | PresetField | From | To | Repos | Flavors | Statuses

  type Query = map<Field, string>

  function Lookup(q: Query, f: Field): Option<string> {
    if f in q then Some(q[f]) else None
  }

  /** What a spec's URL says under each parameter. */
  function FieldText(s: Spec, f: Field): Option<string> {
    match f
    case Metric => Some(s.metric)
    case Dimension => Some(s.dimension)
    case Chart => Some(s.chart)
    case PresetField => if s.preset.Some? then Some(PresetName(s.preset.value)) else None
    case From => if s.preset.Some? then None else Some(s.from)
    case To => if s.preset.Some? then None else Some(s.to)
    case Repos => if s.repoIds == [] then None else Some(WriteList(Decimals(s.repoIds)))
    case Flavors => if s.flavors == [] then None else Some(WriteList(s.flavors))
    case Statuses => if s.statuses == [] then None else Some(WriteList(s.statuses))
  }

  method SpecToQuery(s: Spec) returns (q: Query)
    ensures forall f :: Lookup(q, f) == FieldText(s, f)
  {
    q := map[Metric := s.metric, Dimension := s.dimension, Chart := s.chart];
    if s.preset.Some? {
      q := q[PresetField := PresetName(s.preset.value)];
    } else {
      q := q[From := s.from];
      q := q[To := s.to];
    }
    if s.repoIds != [] {
      q := q[Repos := WriteList(Decimals(s.repoIds))];
    }
    if s.flavors != [] {
      q := q[Flavors := WriteList(s.flavors)];
    }
    if s.statuses != [] {
      q := q[Statuses := WriteList(s.statuses)];
    }
  }

  function ListOf(raw: Option<string>): Option<seq<string>> {
    if raw.None? then None else Some(ReadList(raw.value))
  }

  function RawOf(q: Query): Raw {
    Raw(if Lookup(q, Metric).Some? then Lookup(q, Metric) else Some("spend"),
        Lookup(q, Dimension), Lookup(q, Chart), Lookup(q, PresetField), Lookup(q, From), Lookup(q, To),
        IdsOf(Lookup(q, Repos)), ListOf(Lookup(q, Flavors)), ListOf(Lookup(q, Statuses)))
  }

  function SpecFromQuery(q: Query, env: Env): Option<Spec> {
    Resolve(RawOf(q), env)
  }

  /** A URL without a metric asks for spend; every other parameter it lacks is absent from the input. */
  lemma BareQueryAsksForSpend(q: Query)
    ensures RawOf(q).metric == if Metric in q then Some(q[Metric]) else Some("spend")
    ensures Dimension !in q ==> RawOf(q).dimension.None?
    ensures Flavors !in q && Statuses !in q && Repos !in q ==> RawOf(q).flavors.None? && RawOf(q).statuses.None? && RawOf(q).repoIds.None?
  {
  }

  // ---- the round trip ---------------------------------------------------------------------------------

  lemma PresetReadsBack(p: Preset, maxDays: nat)
    requires p in AvailablePresets(maxDays)
    ensures ReadPreset(Some(PresetName(p)), maxDays) == Some(Some(p))
  {
    assert "24h"[0] == '2' && "7d"[0] == '7' && "30d"[0] == '3' && "90d"[0] == '9';
    assert PresetOf(PresetName(p)) == Some(p);
  }

  /** A resolved window, pinned by its preset or its two instants, resolves to itself at the same `now`. */
  lemma WindowReadsBack(raw: Raw, raw': Raw, env: Env, w: WindowOf)
    requires ClockOk(env.clock) && ReadWindow(raw, env) == Some(w)
    requires raw'.preset == if w.preset.Some? then Some(PresetName(w.preset.value)) else None
    requires raw'.from == if w.preset.Some? then None else Some(w.from)
    requires raw'.to == if w.preset.Some? then None else Some(w.to)
    ensures ReadWindow(raw', env) == Some(w)
  {
    if w.preset.Some? {
      PresetReadsBack(w.preset.value, env.maxDays);
    }
  }

  lemma RepoIdsReadBack(ids: seq<nat>)
    requires |ids| <= MAX_FILTER_VALUES && forall i :: 0 <= i < |ids| ==> 0 < ids[i] <= MAX_SAFE_INTEGER
    ensures ReadRepoIds(IdsOf(if ids == [] then None else Some(WriteList(Decimals(ids))))) == Some(ids)
  {
    if ids != [] {
      DecimalsReadBack(ids);
      var read := ReadDecimals(Decimals(ids));
      assert forall i :: 0 <= i < |read| ==> RepoIdOk(read[i]);
      assert Values(read) == ids;
    }
  }

  lemma NamesReadBack(names: seq<string>, known: set<string>, most: Option<nat>)
    requires (most.Some? ==> |names| <= most.value) && forall i :: 0 <= i < |names| ==> names[i] in known && Carried(names[i])
    ensures ReadNames(ListOf(if names == [] then None else Some(WriteList(names))), known, most) == Some(names)
  {
    if names != [] {
      ListReadsBack(names);
    }
  }

  /** What every resolved spec is known to satisfy, beside its window. */
  ghost predicate InCatalog(v: Vocabulary, s: Spec) {
    && s.metric in v.metrics && s.chart in v.charts && (s.dimension in v.dimensions || s.dimension == "none")
    && |s.repoIds| <= MAX_FILTER_VALUES && (forall i :: 0 <= i < |s.repoIds| ==> 0 < s.repoIds[i] <= MAX_SAFE_INTEGER)
    && |s.flavors| <= MAX_FILTER_VALUES && (forall i :: 0 <= i < |s.flavors| ==> s.flavors[i] in v.flavors)
    && forall i :: 0 <= i < |s.statuses| ==> s.statuses[i] in v.statuses
  }

  /** Nothing outside the catalog is ever accepted, and the window is the one the input named. */
  lemma ResolvedIsInCatalog(raw: Raw, env: Env, s: Spec)
    requires VocabularyOk(env.vocabulary) && Resolve(raw, env) == Some(s)
    ensures InCatalog(env.vocabulary, s) && ReadWindow(raw, env) == Some(WindowOf(s.from, s.to, s.preset))
  {
    if raw.repoIds.Some? {
      assert forall i :: 0 <= i < |raw.repoIds.value| ==> RepoIdOk(raw.repoIds.value[i]);
    }
  }

  function IdsOf(text: Option<string>): Option<seq<Option<nat>>> {
    var list := ListOf(text);
    if list.None? then None else Some(ReadDecimals(list.value))
  }

  /** The raw input a spec's own URL amounts to. */
  function Pinned(s: Spec): Raw {
    Raw(Some(s.metric), Some(s.dimension), Some(s.chart), FieldText(s, PresetField), FieldText(s, From), FieldText(s, To),
        IdsOf(FieldText(s, Repos)), ListOf(FieldText(s, Flavors)), ListOf(FieldText(s, Statuses)))
  }

  lemma QueryIsPinned(q: Query, s: Spec)
    requires forall f :: Lookup(q, f) == FieldText(s, f)
    ensures RawOf(q) == Pinned(s)
  {
    assert Lookup(q, Metric) == Some(s.metric) && Lookup(q, Dimension) == Some(s.dimension) && Lookup(q, Chart) == Some(s.chart);
  }

  /** Each part resolving on its own is enough. */
  lemma PartsResolve(raw: Raw, env: Env, s: Spec)
    requires raw.metric == Some(s.metric) && s.metric in env.vocabulary.metrics
    requires raw.dimension == Some(s.dimension) && s.dimension in env.vocabulary.dimensions
    requires raw.chart == Some(s.chart) && s.chart in env.vocabulary.charts
    requires ReadWindow(raw, env) == Some(WindowOf(s.from, s.to, s.preset))
    requires ReadRepoIds(raw.repoIds) == Some(s.repoIds)
    requires ReadNames(raw.flavors, env.vocabulary.flavors, Some(MAX_FILTER_VALUES)) == Some(s.flavors)
    requires ReadNames(raw.statuses, env.vocabulary.statuses, None) == Some(s.statuses)
    ensures Resolve(raw, env) == Some(s)
  {
  }

  lemma PinnedIdsRead(v: Vocabulary, s: Spec)
    requires InCatalog(v, s)
    ensures ReadRepoIds(IdsOf(FieldText(s, Repos))) == Some(s.repoIds)
  {
    RepoIdsReadBack(s.repoIds);
  }

  lemma PinnedNamesRead(v: Vocabulary, s: Spec)
    requires VocabularyOk(v) && InCatalog(v, s)
    ensures ReadNames(ListOf(FieldText(s, Flavors)), v.flavors, Some(MAX_FILTER_VALUES)) == Some(s.flavors)
  {
    NamesReadBack(s.flavors, v.flavors, Some(MAX_FILTER_VALUES));
  }

  lemma PinnedStatusesRead(v: Vocabulary, s: Spec)
    requires VocabularyOk(v) && InCatalog(v, s)
    ensures ReadNames(ListOf(FieldText(s, Statuses)), v.statuses, None) == Some(s.statuses)
  {
    NamesReadBack(s.statuses, v.statuses, None);
  }

  lemma PinnedResolves(raw: Raw, env: Env, s: Spec)
    requires VocabularyOk(env.vocabulary) && ClockOk(env.clock) && "none" in env.vocabulary.dimensions
    requires InCatalog(env.vocabulary, s) && ReadWindow(raw, env) == Some(WindowOf(s.from, s.to, s.preset))
    ensures Resolve(Pinned(s), env) == Some(s)
  {
    PinnedIdsRead(env.vocabulary, s);
    PinnedNamesRead(env.vocabulary, s);
    PinnedStatusesRead(env.vocabulary, s);
    WindowReadsBack(raw, Pinned(s), env, WindowOf(s.from, s.to, s.preset));
    PartsResolve(Pinned(s), env, s);
  }

  /**
   * Every accepted spec is pinned by its URL: the query built from it resolves, at the same instant,
   * to the same spec, whichever of preset or explicit window it came from.
   */
  lemma SpecReadsBack(raw: Raw, env: Env, s: Spec, q: Query)
    requires VocabularyOk(env.vocabulary) && ClockOk(env.clock) && "none" in env.vocabulary.dimensions
    requires Resolve(raw, env) == Some(s) && forall f :: Lookup(q, f) == FieldText(s, f)
    ensures SpecFromQuery(q, env) == Some(s)
  {
    ResolvedIsInCatalog(raw, env, s);
    QueryIsPinned(q, s);
    PinnedResolves(raw, env, s);
  }

  // ---- what is accepted, and as what ----------------------------------------------------------------------

  /** How long a preset's window is, by the preset's name. */
  function Span(name: string): Option<int> {
    if name == "24h" then Some(24 * 3600000)
    else if name == "7d" then Some(7 * 86400000)
    else if name == "30d" then Some(30 * 86400000)
    else if name == "90d" then Some(90 * 86400000)
    else None
  }

  /** Retention covers the preset; the shortest is always offered. */
  ghost predicate Offered(name: string, maxDays: nat) {
    Span(name).Some? && (Span(name).value <= maxDays * 86400000 || name == "24h")
  }

  /** Seven days, or one when retention is shorter. */
  function DefaultName(maxDays: nat): string {
    if maxDays >= 7 then "7d" else "24h"
  }

  /** The window ends now and is exactly as long as its preset says. */
  ghost predicate NamedWindow(name: string, env: Env, s: Spec) {
    && Span(name).Some? && s.preset.Some? && PresetName(s.preset.value) == name
    && s.to == env.clock.iso(env.now) && s.from == env.clock.iso(env.now - Span(name).value)
  }

  /** Both ends parse, in order, no further apart and no longer ago than retention. */
  ghost predicate GivenWindow(raw: Raw, env: Env, s: Spec, from: int, to: int) {
    && raw.from.Some? && env.clock.parse(raw.from.value) == Some(from)
    && raw.to.Some? && env.clock.parse(raw.to.value) == Some(to)
    && from < to && to - from <= env.maxDays * 86400000 && env.now - env.maxDays * 86400000 <= from
    && s.preset.None? && s.from == env.clock.iso(from) && s.to == env.clock.iso(to)
  }

  ghost predicate WindowMeets(raw: Raw, env: Env, s: Spec) {
    && (raw.preset.Some? ==> Offered(raw.preset.value, env.maxDays))
    && if raw.from.None? && raw.to.None?
       then NamedWindow(if raw.preset.Some? then raw.preset.value else DefaultName(env.maxDays), env, s)
       else exists from, to :: GivenWindow(raw, env, s, from, to)
  }

  ghost predicate NamesMeet(given: Option<seq<string>>, known: set<string>, names: seq<string>) {
    names == (if given.Some? then given.value else []) && forall i :: 0 <= i < |names| ==> names[i] in known
  }

  /** `s` is what the input asks for, and everything it names is known. */
  ghost predicate Meets(raw: Raw, env: Env, s: Spec) {
    var v := env.vocabulary;
    && raw.metric == Some(s.metric) && s.metric in v.metrics
    && (if raw.dimension.Some? then raw.dimension == Some(s.dimension) && s.dimension in v.dimensions else s.dimension == "none")
    && (if raw.chart.Some? then raw.chart == Some(s.chart) && s.chart in v.charts else s.chart == v.defaultChart(s.metric))
    && WindowMeets(raw, env, s)
    && (if raw.repoIds.Some?
        then && |raw.repoIds.value| == |s.repoIds| <= 50
             && forall i :: 0 <= i < |s.repoIds| ==> raw.repoIds.value[i] == Some(s.repoIds[i]) && 0 < s.repoIds[i] <= 9007199254740991
        else s.repoIds == [])
    && NamesMeet(raw.flavors, v.flavors, s.flavors) && |s.flavors| <= 50
    && NamesMeet(raw.statuses, v.statuses, s.statuses)
  }

  lemma PresetIs(name: string)
    ensures PresetOf(name).Some? <==> Span(name).Some?
    ensures PresetOf(name).Some? ==>
              PresetName(PresetOf(name).value) == name && PresetHours(PresetOf(name).value) * 3600000 == Span(name).value
  {
  }

  lemma PresetNames(p: Preset)
    ensures PresetOf(PresetName(p)) == Some(p)
  {
    assert "24h"[0] == '2' && "7d"[0] == '7' && "30d"[0] == '3' && "90d"[0] == '9';
  }

  lemma {:induction false} ServableAre(presets: seq<Preset>, maxDays: nat)
    ensures forall p :: p in Servable(presets, maxDays) <==> p in presets && PresetHours(p) <= 24 * maxDays
  {
    if presets != [] {
      ServableAre(presets[1..], maxDays);
      assert presets == [presets[0]] + presets[1..];
    }
  }

  lemma {:induction false} NoneServable(presets: seq<Preset>)
    ensures Servable(presets, 0) == []
  {
    if presets != [] {
      NoneServable(presets[1..]);
    }
  }

  lemma PresetListed(p: Preset, all: seq<Preset>)
    requires all == [P24h, P7d, P30d, P90d]
    ensures p in all
  {
    match p {
      case P24h => assert all[0] == p;
      case P7d => assert all[1] == p;
      case P30d => assert all[2] == p;
      case P90d => assert all[3] == p;
    }
  }

  lemma AvailableAre(maxDays: nat)
    ensures forall p :: p in AvailablePresets(maxDays) <==> PresetHours(p) <= 24 * maxDays || p == P24h
  {
    ServableAre(RANGE_PRESETS, maxDays);
    forall p: Preset ensures p in RANGE_PRESETS {
      PresetListed(p, RANGE_PRESETS);
    }
    var allowed := Servable(RANGE_PRESETS, maxDays);
    if maxDays == 0 {
      NoneServable(RANGE_PRESETS);
    } else {
      assert P24h in allowed;
    }
  }

  lemma DefaultIs(maxDays: nat)
    ensures PresetName(DefaultPreset(AvailablePresets(maxDays))) == DefaultName(maxDays)
  {
    AvailableAre(maxDays);
    var presets := AvailablePresets(maxDays);
    if maxDays < 7 {
      assert presets[|presets| - 1] in presets;
    }
  }

  lemma PresetReadIs(raw: Raw, env: Env)
    ensures ReadPreset(raw.preset, env.maxDays).Some? <==> (raw.preset.Some? ==> Offered(raw.preset.value, env.maxDays))
    ensures raw.preset.Some? && ReadPreset(raw.preset, env.maxDays).Some? ==>
              ReadPreset(raw.preset, env.maxDays) == Some(PresetOf(raw.preset.value))
  {
    AvailableAre(env.maxDays);
    if raw.preset.Some? {
      PresetIs(raw.preset.value);
      PresetNames(P24h);
    }
  }

  lemma NamedWindowIs(name: string, p: Preset, env: Env, s: Spec)
    requires PresetName(p) == name
    ensures PresetWindow(p, env) == WindowOf(s.from, s.to, s.preset) <==> NamedWindow(name, env, s)
  {
    PresetNames(p);
    PresetIs(name);
    if s.preset.Some? {
      PresetNames(s.preset.value);
    }
  }

  lemma WindowReadIs(raw: Raw, env: Env, s: Spec)
    ensures ReadWindow(raw, env) == Some(WindowOf(s.from, s.to, s.preset)) <==> WindowMeets(raw, env, s)
  {
    PresetReadIs(raw, env);
    if raw.from.None? && raw.to.None? {
      if raw.preset.Some? && Offered(raw.preset.value, env.maxDays) {
        PresetIs(raw.preset.value);
        NamedWindowIs(raw.preset.value, PresetOf(raw.preset.value).value, env, s);
      } else {
        DefaultIs(env.maxDays);
        NamedWindowIs(DefaultName(env.maxDays), DefaultPreset(AvailablePresets(env.maxDays)), env, s);
      }
    } else {
      GivenWindowIs(raw, env, s);
    }
  }

  lemma GivenWindowIs(raw: Raw, env: Env, s: Spec)
    requires raw.from.Some? || raw.to.Some?
    ensures var from, to := ParseIso(raw.from, env.clock), ParseIso(raw.to, env.clock);
            (exists a, b :: GivenWindow(raw, env, s, a, b)) <==> from.Some? && to.Some? && GivenWindow(raw, env, s, from.value, to.value)
  {
  }

  lemma RepoIdsAre(raw: Raw, ids: seq<nat>)
    ensures ReadRepoIds(raw.repoIds) == Some(ids) <==>
            if raw.repoIds.Some?
            then && |raw.repoIds.value| == |ids| <= 50
                 && forall i :: 0 <= i < |ids| ==> raw.repoIds.value[i] == Some(ids[i]) && 0 < ids[i] <= 9007199254740991
            else ids == []
  {
    if raw.repoIds.Some? {
      var given := raw.repoIds.value;
      if |given| == |ids| && forall i :: 0 <= i < |ids| ==> given[i] == Some(ids[i]) && 0 < ids[i] <= 9007199254740991 {
        assert forall i :: 0 <= i < |given| ==> RepoIdOk(given[i]);
        assert Values(given) == ids;
      }
    }
  }

  /** Exactly what is accepted, and as what: every accepted spec is what its input asks for, and nothing else is refused. */
  lemma ResolvedIff(raw: Raw, env: Env, s: Spec)
    ensures Resolve(raw, env) == Some(s) <==> Meets(raw, env, s)
  {
    WindowReadIs(raw, env, s);
    RepoIdsAre(raw, s.repoIds);
  }
}
