/**
 * The configuration mutation lock, as interleaved steps of any number of brokers.
 *
 * A broker reads its clock, then its conditional write lands, then its section runs, then its
 * release lands. Brokers may crash, and either write may land although its caller saw a failure.
 */
module ConfigLock {
  import opened Text
  import opened ConfigStore

  /** A running critical section, by the clock reading its acquire carried. */
  datatype World = World(clock: nat, row: LockRow, active: map<string, nat>, used: set<string>)

  datatype Event =
    | Tick(ms: nat)
    | Acquire(holder: string, now: nat, answered: bool)
    | EndSection(holder: string)
    | Release(holder: string)

  ghost predicate Init(w: World) {
    w.row == LockRow(None, None) && w.active == map[] && w.used == {}
  }

  ghost predicate Step(ttl: nat, w: World, e: Event, w': World) {
    match e
    case Tick(ms) => w' == w.(clock := w.clock + ms)
    case Acquire(holder, now, answered) =>
      // holders are never reused; the reading predates the write; a lost answer runs no section
      && holder !in w.used && now <= w.clock
      && w' == w.(used := w.used + {holder},
                  row := if CanAcquire(w.row, now) then Held(holder, ttl, now) else w.row,
                  active := if CanAcquire(w.row, now) && answered then w.active[holder := now] else w.active)
    case EndSection(holder) =>
      w' == w.(active := w.active - {holder})
    case Release(holder) =>
      // only after its own section ended; it may also arrive long after, or never
      holder in w.used && holder !in w.active && w' == w.(row := Released(w.row, holder))
  }

  ghost predicate IsRun(ttl: nat, ws: seq<World>, es: seq<Event>) {
    && |ws| == |es| + 1 && Init(ws[0])
    && forall i :: 0 <= i < |es| ==> Step(ttl, ws[i], es[i], ws[i + 1])
  }

  /** No section outlives its time to live. */
  ghost predicate InTime(ttl: nat, w: World) {
    forall h :: h in w.active ==> w.clock <= w.active[h] + ttl
  }

  /** Every running section owns the row, until the time its acquire wrote. */
  ghost predicate Inv(ttl: nat, w: World) {
    && (forall h :: h in w.active ==> h in w.used && w.row == LockRow(Some(h), Some(w.active[h] + ttl)))
    && (w.row.holder.Some? ==> w.row.holder.value in w.used)
  }

  lemma StepKeeps(ttl: nat, w: World, e: Event, w': World)
    requires Inv(ttl, w) && InTime(ttl, w) && Step(ttl, w, e, w')
    ensures Inv(ttl, w')
  {
    forall h | e.Acquire? && h in w.active ensures !CanAcquire(w.row, e.now) {
      assert w.row.expiresAt == Some(w.active[h] + ttl);
    }
  }

  lemma {:induction false} RunInv(ttl: nat, ws: seq<World>, es: seq<Event>, n: nat)
    requires IsRun(ttl, ws, es) && n < |ws| && forall i :: 0 <= i < n ==> InTime(ttl, ws[i])
    ensures Inv(ttl, ws[n])
  {
    if n > 0 {
      RunInv(ttl, ws, es, n - 1);
      StepKeeps(ttl, ws[n - 1], es[n - 1], ws[n]);
    }
  }

  /** Mutual exclusion in every run in which each section ends within `ttl` of its acquire's clock reading. */
  lemma NoTwoSections(ttl: nat, ws: seq<World>, es: seq<Event>, n: nat, g: string, h: string)
    requires IsRun(ttl, ws, es) && n < |ws| && forall i :: 0 <= i < n ==> InTime(ttl, ws[i])
    requires g in ws[n].active && h in ws[n].active
    ensures g == h
  {
    RunInv(ttl, ws, es, n);
  }

  /** While a section runs, another acquire succeeds exactly when its clock reading is past the time to live. */
  lemma TakeoverIff(ttl: nat, ws: seq<World>, es: seq<Event>, n: nat, h: string)
    requires IsRun(ttl, ws, es) && n < |es| && es[n].Acquire? && forall i :: 0 <= i < n ==> InTime(ttl, ws[i])
    requires h in ws[n].active
    ensures ws[n + 1].row.holder == Some(es[n].holder) <==> es[n].now > ws[n].active[h] + ttl
  {
    RunInv(ttl, ws, es, n);
    assert Step(ttl, ws[n], es[n], ws[n + 1]);
  }

  /** Once `h` lost the row to a later holder, it can neither own nor release it again; no timing assumed. */
  lemma {:induction false} LapsedStaysOut(ttl: nat, ws: seq<World>, es: seq<Event>, m: nat, n: nat, h: string)
    requires IsRun(ttl, ws, es) && m <= n < |ws|
    requires h in ws[m].used && ws[m].row.holder != Some(h)
    ensures h in ws[n].used && ws[n].row.holder != Some(h)
    ensures n < |es| && es[n] == Release(h) ==> ws[n + 1].row == ws[n].row
    decreases n
  {
    if m < n {
      LapsedStaysOut(ttl, ws, es, m, n - 1, h);
      assert Step(ttl, ws[n - 1], es[n - 1], ws[n]);
    }
    if n < |es| {
      assert Step(ttl, ws[n], es[n], ws[n + 1]);
    }
  }

  /** The holder's own release frees the row at once: any acquire with a clock reading past 0 succeeds. */
  lemma ReleaseFrees(ttl: nat, ws: seq<World>, es: seq<Event>, n: nat, h: string, now: nat)
    requires IsRun(ttl, ws, es) && n < |es| && es[n] == Release(h) && ws[n].row.holder == Some(h)
    ensures CanAcquire(ws[n + 1].row, now) <==> now > 0
  {
    assert Step(ttl, ws[n], es[n], ws[n + 1]);
  }

  /** A crashed holder wedges nothing: past its expiry any acquire succeeds, whoever held the row. */
  lemma {:induction false} LockIsReclaimable(ttl: nat, ws: seq<World>, es: seq<Event>, n: nat)
    requires IsRun(ttl, ws, es) && n < |ws|
    ensures ws[n].row.expiresAt.Some? ==> ws[n].row.expiresAt.value <= ws[n].clock + ttl
    ensures forall now :: now > ws[n].clock + ttl ==> CanAcquire(ws[n].row, now)
    decreases n
  {
    if n > 0 {
      LockIsReclaimable(ttl, ws, es, n - 1);
      assert Step(ttl, ws[n - 1], es[n - 1], ws[n]);
    }
  }
}
