/**
 * Resolving a microVM's log stream: two date-prefix scans and a recency fallback on one budget of
 * describe calls, behind two bounded caches.
 */
module LogStreams {
  import opened Text

  const STREAM_PAGE_SIZE: nat := 50
  const STREAM_SCAN_BUDGET: nat := 12
  const STREAM_FALLBACK_RESERVE: nat := 2
  const STREAM_CACHE_MAX: nat := 500
  const STREAM_MISS_TTL_MS: nat := 5000

  /** A stream's name, when it has one, contains the VM's id. */
  predicate BelongsTo(name: string, vm: string) {
    name != "" && Contains(name, vm)
  }

  /** `ByDate`: streams under one date prefix. `Recent`: all streams, most recently written first. */
  datatype Tier = ByDate(prefix: string) | Recent

  /** One log group as one resolution sees it, and the describe calls spent on it. */
  class LogGroup {
    const listing: Tier -> seq<string>
    var describes: nat

    constructor (listing: Tier -> seq<string>)
      ensures this.listing == listing && describes == 0
    {
      this.listing, describes := listing, 0;
    }

    /** A page may be short or empty and still have a next token. */
    method Describe(tier: Tier, from: nat) returns (page: seq<string>, next: Option<nat>)
      requires from <= |listing(tier)|
      modifies this
      ensures describes == old(describes) + 1
      ensures |page| <= STREAM_PAGE_SIZE && from + |page| <= |listing(tier)|
      ensures page == listing(tier)[from..from + |page|]
      ensures next == if next.Some? then Some(from + |page|) else None
      ensures next.None? ==> from + |page| == |listing(tier)|
    {
      describes := describes + 1;
      var all := listing(tier);
      var upto: nat :| from <= upto <= |all| && upto - from <= STREAM_PAGE_SIZE;
      var last: bool := *;
      page := all[from..upto];
      next := if upto == |all| && last then None else Some(upto);
    }
  }

  datatype ScanResult = ScanResult(found: Option<string>, exhausted: bool, sawStreams: bool, spent: nat)

  ghost predicate NoneBelongs(names: seq<string>, vm: string) {
    forall i :: 0 <= i < |names| && names[i] != "" ==> !Contains(names[i], vm)
  }

  /**
   * Walk one tier until a match, its end, or the budget. `exhausted` is authoritative: it means every
   * stream of the tier was seen and none belongs. A miss that is not exhausted spent the whole budget.
   */
  method ScanForStream(group: LogGroup, tier: Tier, vm: string, budget: nat) returns (r: ScanResult)
    modifies group
    ensures r.spent <= budget && group.describes == old(group.describes) + r.spent
    ensures r.found.Some? ==> r.found.value in group.listing(tier) && r.found.value != "" && Contains(r.found.value, vm) && !r.exhausted
    ensures r.exhausted ==> NoneBelongs(group.listing(tier), vm) && (r.sawStreams <==> group.listing(tier) != [])
    ensures r.sawStreams ==> group.listing(tier) != []
    ensures r.found.None? && !r.exhausted ==> r.spent == budget
    ensures budget > 0 ==> r.spent > 0
  {
    var from: nat, spent: nat, sawStreams := 0, 0, false;
    while spent < budget
      invariant from <= |group.listing(tier)| && spent <= budget && group.describes == old(group.describes) + spent
      invariant NoneBelongs(group.listing(tier)[..from], vm) && (sawStreams <==> from > 0)
    {
      var page, next := group.Describe(tier, from);
      spent := spent + 1;
      if page != [] {
        sawStreams := true;
      }
      var k := 0;
      while k < |page| && !BelongsTo(page[k], vm)
        invariant k <= |page| && NoneBelongs(page[..k], vm)
      {
        k := k + 1;
      }
      if k < |page| {
        assert page[k] == group.listing(tier)[from + k];
        return ScanResult(Some(page[k]), false, sawStreams, spent);
      }
      var all := group.listing(tier);
      assert all[..from + |page|] == all[..from] + page && page[..|page|] == page;
      if next.None? {
        assert all[..from + |page|] == all;
        return ScanResult(None, true, sawStreams, spent);
      }
      from := next.value;
    }
    return ScanResult(None, false, sawStreams, spent);
  }

  // ---- the caches -------------------------------------------------------------------------------------

  /** An insertion-ordered map, oldest first. */
  type Entries<V> = seq<(string, V)>

  function Find<V>(m: Entries<V>, vm: string): Option<V> {
    if m == [] then None else if m[0].0 == vm then Some(m[0].1) else Find(m[1..], vm)
  }

  function Delete<V>(m: Entries<V>, vm: string): (r: Entries<V>)
    ensures |r| <= |m|
  {
    if m == [] then [] else if m[0].0 == vm then m[1..] else [m[0]] + Delete(m[1..], vm)
  }

  function Set<V>(m: Entries<V>, vm: string, v: V): (r: Entries<V>)
    ensures |r| <= |m| + 1
  {
    if m == [] then [(vm, v)] else if m[0].0 == vm then [(vm, v)] + m[1..] else [m[0]] + Set(m[1..], vm, v)
  }

  function EvictOldest<V>(m: Entries<V>): Entries<V> {
    if |m| < STREAM_CACHE_MAX then m else m[1..]
  }

  lemma {:induction false} SetFinds<V>(m: Entries<V>, vm: string, v: V, x: string)
    ensures Find(Set(m, vm, v), x) == if x == vm then Some(v) else Find(m, x)
  {
    if m != [] && m[0].0 != vm {
      SetFinds(m[1..], vm, v, x);
      assert ([m[0]] + Set(m[1..], vm, v))[1..] == Set(m[1..], vm, v);
    } else if m != [] {
      assert ([(vm, v)] + m[1..])[1..] == m[1..];
    }
  }

  ghost predicate Unique<V>(m: Entries<V>) {
    forall i, j :: 0 <= i < j < |m| ==> m[i].0 != m[j].0
  }

  lemma {:induction false} NotFound<V>(m: Entries<V>, x: string)
    ensures Find(m, x).None? <==> forall i :: 0 <= i < |m| ==> m[i].0 != x
  {
    if m != [] && m[0].0 != x {
      NotFound(m[1..], x);
      assert forall i :: 0 < i < |m| ==> m[i] == m[1..][i - 1];
    }
  }

  lemma UniqueTail<V>(m: Entries<V>)
    requires Unique(m) && m != []
    ensures Unique(m[1..]) && Find(m[1..], m[0].0).None?
  {
    NotFound(m[1..], m[0].0);
  }

  lemma {:induction false} DeleteFinds<V>(m: Entries<V>, vm: string)
    requires Unique(m)
    ensures Unique(Delete(m, vm))
    ensures forall x :: Find(Delete(m, vm), x) == if x == vm then None else Find(m, x)
  {
    if m != [] {
      UniqueTail(m);
      if m[0].0 != vm {
        DeleteFinds(m[1..], vm);
        ConsUnique(m[0], Delete(m[1..], vm));
      }
    }
  }

  /** A first entry in front of others that do not have its key. */
  lemma ConsUnique<V>(first: (string, V), rest: Entries<V>)
    requires Unique(rest) && Find(rest, first.0).None?
    ensures Unique([first] + rest)
    ensures forall x :: Find([first] + rest, x) == if x == first.0 then Some(first.1) else Find(rest, x)
  {
    NotFound(rest, first.0);
    assert ([first] + rest)[1..] == rest;
  }

  lemma {:induction false} SetUnique<V>(m: Entries<V>, vm: string, v: V)
    requires Unique(m)
    ensures Unique(Set(m, vm, v))
  {
    if m != [] {
      UniqueTail(m);
      if m[0].0 != vm {
        SetUnique(m[1..], vm, v);
        SetFinds(m[1..], vm, v, m[0].0);
        ConsUnique(m[0], Set(m[1..], vm, v));
      } else {
        ConsUnique((vm, v), m[1..]);
      }
    }
  }

  /** Only the oldest entry is ever evicted, and only from a full cache. */
  ghost predicate OnlyOldestGone<V>(m: Entries<V>, m': Entries<V>, vm: string) {
    forall x :: x != vm ==> Find(m', x) == Find(m, x) || (|m| >= STREAM_CACHE_MAX && m[0].0 == x)
  }

  lemma Evicted<V>(m: Entries<V>, vm: string, v: V)
    requires Unique(m) && |m| <= STREAM_CACHE_MAX
    ensures var m' := Set(EvictOldest(m), vm, v);
            Unique(m') && |m'| <= STREAM_CACHE_MAX && Find(m', vm) == Some(v) && OnlyOldestGone(m, m', vm)
  {
    if m != [] {
      UniqueTail(m);
    }
    SetUnique(EvictOldest(m), vm, v);
    forall x ensures Find(Set(EvictOldest(m), vm, v), x) == if x == vm then Some(v) else Find(EvictOldest(m), x) {
      SetFinds(EvictOldest(m), vm, v, x);
    }
  }

  ghost predicate AllBelong(m: Entries<string>) {
    forall i :: 0 <= i < |m| ==> BelongsTo(m[i].1, m[i].0)
  }

  lemma {:induction false} FindBelongs(m: Entries<string>, vm: string)
    requires AllBelong(m) && Find(m, vm).Some?
    ensures BelongsTo(Find(m, vm).value, vm)
  {
    if m[0].0 != vm {
      FindBelongs(m[1..], vm);
    }
  }

  lemma {:induction false} SetBelongs(m: Entries<string>, vm: string, name: string)
    requires AllBelong(m) && BelongsTo(name, vm)
    ensures AllBelong(Set(m, vm, name))
  {
    if m != [] && m[0].0 != vm {
      SetBelongs(m[1..], vm, name);
    }
  }

  // ---- the resolution ---------------------------------------------------------------------------------

  function Max(a: int, b: int): int {
    if a < b then b else a
  }

  /** How a resolution came to its answer. */
  datatype Path = CachedName | CachedMiss | Scanned(fellBack: bool, fallbackBudget: nat)

  /** Per-container caches for one log group, keyed by VM. */
  class Resolver {
    var names: Entries<string>
    var misses: Entries<nat>

    constructor ()
      ensures Valid()
    {
      names, misses := [], [];
    }

    ghost predicate Valid() reads this {
      |names| <= STREAM_CACHE_MAX && |misses| <= STREAM_CACHE_MAX && AllBelong(names) && Unique(names) && Unique(misses)
    }

    /** The date tiers: one call at least for each prefix, and the fallback's reserve kept back. */
    method ScanDates(group: LogGroup, vm: string, prefixes: seq<string>)
      returns (found: Option<string>, ruledOut: bool, spent: nat)
      requires |prefixes| == 0 || |prefixes| == 2
      modifies group
      ensures group.describes == old(group.describes) + spent
      ensures spent <= STREAM_SCAN_BUDGET - STREAM_FALLBACK_RESERVE
      ensures found.Some? ==> found.value != "" && Contains(found.value, vm)
      ensures found.None? ==> spent >= |prefixes|
      ensures found.None? && |prefixes| == 2 ==>
                spent == 10 || forall p :: p in prefixes ==> NoneBelongs(group.listing(ByDate(p)), vm)
      ensures found.None? && ruledOut ==>
                && (forall p :: p in prefixes ==> NoneBelongs(group.listing(ByDate(p)), vm))
                && exists p :: p in prefixes && group.listing(ByDate(p)) != []
    {
      var allExhausted, sawStreams := |prefixes| > 0, false;
      var dateBudget := if |prefixes| > 0 then STREAM_SCAN_BUDGET - STREAM_FALLBACK_RESERVE else 0;
      spent, found := 0, None;
      for i := 0 to |prefixes|
        invariant group.describes == old(group.describes) + spent && found.None?
        invariant i <= spent <= if i == 0 then 0 else dateBudget - (|prefixes| - i)
        invariant allExhausted ==> |prefixes| > 0 && forall k :: 0 <= k < i ==> NoneBelongs(group.listing(ByDate(prefixes[k])), vm)
        invariant allExhausted || spent >= dateBudget - (|prefixes| - i)
        invariant sawStreams ==> exists k :: 0 <= k < i && group.listing(ByDate(prefixes[k])) != []
      {
        var reserve := |prefixes| - 1 - i;
        var scan := ScanForStream(group, ByDate(prefixes[i]), vm, Max(1, dateBudget - spent - reserve));
        spent := spent + scan.spent;
        allExhausted := allExhausted && scan.exhausted;
        sawStreams := sawStreams || scan.sawStreams;
        if scan.found.Some? {
          found := scan.found;
          break;
        }
      }
      ruledOut := allExhausted && sawStreams;
    }

    /**
     * One resolution. It spends at most the scan budget, returns only a name belonging to the VM, and
     * costs nothing when either cache answers. A scanned miss that skipped the fallback has seen every
     * stream under both date prefixes; one that did not left the fallback at least its reserve, and has
     * seen every recent stream or spent the whole budget.
     */
    method Resolve(group: LogGroup, vm: string, prefixes: seq<string>, now: nat, done: nat)
      returns (found: Option<string>, ghost path: Path)
      requires Valid() && (|prefixes| == 0 || |prefixes| == 2) && now <= done
      modifies this, group
      ensures Valid()
      ensures group.describes <= old(group.describes) + STREAM_SCAN_BUDGET
      ensures !path.Scanned? ==> group.describes == old(group.describes)
      ensures path.CachedName? <==> Find(old(names), vm).Some?
      ensures path.CachedName? ==> found == Find(old(names), vm)
      ensures path.CachedMiss? <==> Find(old(names), vm).None? && Find(old(misses), vm).Some? && now < Find(old(misses), vm).value
      ensures path.CachedMiss? ==> found.None?
      ensures found.Some? ==> found.value != "" && Contains(found.value, vm) && Find(names, vm) == found
      ensures OnlyOldestGone(old(names), names, vm) && OnlyOldestGone(old(misses), misses, vm)
      ensures found.Some? && path.Scanned? ==> Find(misses, vm).None?
      ensures found.None? && path.Scanned? ==> Find(misses, vm) == Some(done + STREAM_MISS_TTL_MS)
      ensures found.None? && path.Scanned? && path.fellBack ==>
                NoneBelongs(group.listing(Recent), vm) || group.describes == old(group.describes) + STREAM_SCAN_BUDGET
      ensures path.Scanned? && path.fellBack ==> path.fallbackBudget >= STREAM_FALLBACK_RESERVE
      ensures found.None? && path.Scanned? && !path.fellBack ==>
                && (forall p :: p in prefixes ==> NoneBelongs(group.listing(ByDate(p)), vm))
                && exists p :: p in prefixes && group.listing(ByDate(p)) != []
    {
      found := Find(names, vm);
      if found.Some? {
        FindBelongs(names, vm);
        return found, CachedName;
      }
      var missUntil := Find(misses, vm);
      if missUntil.Some? && now < missUntil.value {
        return None, CachedMiss;
      }
      DeleteFinds(misses, vm);
      misses := Delete(misses, vm);
      var ruledOut, spent;
      found, ruledOut, spent := ScanDates(group, vm, prefixes);
      var budget := STREAM_SCAN_BUDGET - spent;
      path := Scanned(false, 0);
      if found.None? && !ruledOut && budget > 0 {
        path := Scanned(true, budget);
        var scan := ScanForStream(group, Recent, vm, budget);
        found := scan.found;
      }
      if found.None? {
        var kept, until: nat := EvictOldest(misses), done + STREAM_MISS_TTL_MS;
        Evicted(misses, vm, until);
        misses := Set<nat>(kept, vm, until);
      } else {
        var kept := EvictOldest(names);
        Evicted(names, vm, found.value);
        names := Set(kept, vm, found.value);
        SetBelongs(kept, vm, found.value);
      }
    }
  }
}
