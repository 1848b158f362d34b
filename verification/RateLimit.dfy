/** The in-memory limiter on model invocations: a sliding window per actor, and a budget per container. */
module RateLimit {
  import opened Filtering

  const RATE_LIMIT_PER_WINDOW: nat := 10
  const RATE_WINDOW_MS: nat := 60000
  const MAX_INVOCATIONS_PER_CONTAINER: nat := 500

  datatype Decision = Allowed | SessionRate(retryAfterSeconds: nat) | ContainerBudget

  /** An invocation that was let through. */
  datatype Hit = Hit(actor: string, at: nat)

  /** The actor's invocations in the half-open window that starts at `from`. */
  function InWindowFrom(actor: string, from: nat): Hit -> bool {
    (h: Hit) => h.actor == actor && from <= h.at && h.at < from + 60000
  }

  /** The actor's invocations less than a window old at `now`. */
  function YoungerThanWindow(actor: string, now: nat): Hit -> bool {
    (h: Hit) => h.actor == actor && now < h.at + 60000
  }

  /** An actor's invocation times, oldest first. */
  function HitsOf(log: seq<Hit>, actor: string): seq<nat> {
    if log == [] then []
    else HitsOf(log[..|log| - 1], actor) + if log[|log| - 1].actor == actor then [log[|log| - 1].at] else []
  }

  /** How many of `hits` fall in the half-open span `[from, from + RATE_WINDOW_MS)`. */
  function CountIn(hits: seq<nat>, from: nat): nat {
    if hits == [] then 0
    else CountIn(hits[..|hits| - 1], from) + if from <= hits[|hits| - 1] < from + RATE_WINDOW_MS then 1 else 0
  }

  ghost predicate Sorted(hits: seq<nat>) {
    forall i, j :: 0 <= i < j < |hits| ==> hits[i] <= hits[j]
  }

  /** The eleventh hit after any hit comes a full window later. */
  ghost predicate Spaced(hits: seq<nat>) {
    forall i, j :: 0 <= i && j == i + RATE_LIMIT_PER_WINDOW && j < |hits| ==> hits[i] + RATE_WINDOW_MS <= hits[j]
  }

  /** `kept` is what a bucket may have forgotten down to: the latest hits, the forgotten ones a window old at `last`. */
  ghost predicate Recent(hits: seq<nat>, kept: seq<nat>, last: nat) {
    && |kept| <= |hits| && kept == hits[|hits| - |kept|..]
    && forall i :: 0 <= i < |hits| - |kept| ==> hits[i] + RATE_WINDOW_MS <= last
  }

  method DropExpired(hits: seq<nat>, now: nat) returns (kept: seq<nat>)
    requires Sorted(hits) && forall i :: 0 <= i < |hits| ==> hits[i] <= now
    ensures Dropped(hits, kept, now)
  {
    kept := [];
    for i := 0 to |hits|
      invariant |kept| <= i && kept == hits[i - |kept|..i]
      invariant forall k :: 0 <= k < i ==> (now < hits[k] + RATE_WINDOW_MS <==> k >= i - |kept|)
    {
      assert |kept| > 0 ==> now < hits[i - 1] + RATE_WINDOW_MS && hits[i - 1] <= hits[i];
      if now - hits[i] < RATE_WINDOW_MS {
        kept := kept + [hits[i]];
      }
    }
  }

  /** A bucket and the history it summarizes. */
  ghost predicate ActorInv(hits: seq<nat>, bucket: seq<nat>, last: nat) {
    Sorted(hits) && Spaced(hits) && Recent(hits, bucket, last) && forall i :: 0 <= i < |hits| ==> hits[i] <= last
  }

  function BucketOf(buckets: map<string, seq<nat>>, actor: string): seq<nat> {
    if actor in buckets then buckets[actor] else []
  }

  ghost predicate AllInv(log: seq<Hit>, buckets: map<string, seq<nat>>, last: nat) {
    forall actor :: ActorInv(HitsOf(log, actor), BucketOf(buckets, actor), last)
  }

  class Limiter {
    var buckets: map<string, seq<nat>>
    var invocations: nat
    /** Every invocation let through since the last reset, and the clock at the latest call. */
    ghost var log: seq<Hit>
    ghost var last: nat

    constructor ()
      ensures Valid() && log == [] && last == 0
    {
      buckets, invocations, log, last := map[], 0, [], 0;
    }

    ghost predicate Valid() reads this {
      invocations == |log| <= MAX_INVOCATIONS_PER_CONTAINER && AllInv(log, buckets, last)
    }

    /**
     * Allowed exactly when the container has budget left and the actor has fewer than the limit inside
     * the window ending now; a refusal is not counted. The wait it reports is long enough.
     */
    method RateLimit(actor: string, now: nat) returns (d: Decision)
      requires Valid() && last <= now
      modifies this
      ensures Valid() && last == now
      ensures log == if d.Allowed? then old(log) + [Hit(actor, now)] else old(log)
      ensures d.ContainerBudget? <==> old(|log|) == MAX_INVOCATIONS_PER_CONTAINER
      ensures d.ContainerBudget? <==> old(|log|) >= 500
      ensures !d.ContainerBudget? ==> (d.Allowed? <==> Fewer(old(log), actor, now))
      ensures d.SessionRate? ==>
                WaitIsShortest(old(log), actor, now, d.retryAfterSeconds)
    {
      if invocations >= MAX_INVOCATIONS_PER_CONTAINER {
        LaterKeeps(log, buckets, last, now);
        last := now;
        return ContainerBudget;
      }
      RoomIff(log, buckets, last, actor, now);
      WaitIff(log, buckets, last, actor, now);
      d := SessionDecision(actor, now);
    }

    method SessionDecision(actor: string, now: nat) returns (d: Decision)
      requires Valid() && last <= now && invocations < MAX_INVOCATIONS_PER_CONTAINER
      modifies this
      ensures Valid() && last == now && !d.ContainerBudget?
      ensures log == if d.Allowed? then old(log) + [Hit(actor, now)] else old(log)
      ensures d.Allowed? <==> HasRoom(old(HitsOf(log, actor)), now)
      ensures d.SessionRate? ==> WaitFits(old(HitsOf(log, actor)), now, d.retryAfterSeconds)
    {
      assert ActorInv(HitsOf(log, actor), BucketOf(buckets, actor), last);
      RecentIsSorted(HitsOf(log, actor), BucketOf(buckets, actor), last);
      var kept := DropExpired(BucketOf(buckets, actor), now);
      if |kept| >= RATE_LIMIT_PER_WINDOW {
        RefusalKeeps(log, buckets, last, now, actor, kept);
        buckets := buckets[actor := kept];
        last := now;
        d := SessionRate(RetryAfter(kept[0], now));
      } else {
        AllowanceKeeps(log, buckets, last, now, actor, kept);
        buckets := buckets[actor := kept + [now]];
        invocations := invocations + 1;
        log := log + [Hit(actor, now)];
        last := now;
        d := Allowed;
      }
    }

    /** A fresh container: nothing counted, nothing remembered. */
    method ResetRateLimits()
      modifies this
      ensures Valid() && log == [] && last == old(last)
    {
      buckets, invocations, log := map[], 0, [];
    }

    /** Between resets the container lets through at most its budget, and each actor at most the limit in any window. */
    lemma Bounded(actor: string, from: nat)
      requires Valid()
      ensures |log| <= MAX_INVOCATIONS_PER_CONTAINER
      ensures Passing(log, InWindowFrom(actor, from), |log|) <= 10
    {
      assert ActorInv(HitsOf(log, actor), BucketOf(buckets, actor), last);
      SpacedBoundsCount(HitsOf(log, actor), from);
      HitsCount(log, actor, from, |log|);
      assert log[..|log|] == log;
    }
  }

  /** Fewer than the limit inside the window ending at `now`. */
  ghost predicate HasRoom(hits: seq<nat>, now: nat) {
    |hits| < RATE_LIMIT_PER_WINDOW || hits[|hits| - RATE_LIMIT_PER_WINDOW] + RATE_WINDOW_MS <= now
  }

  /** The shortest whole number of seconds, at least one, after which there is room. */
  ghost predicate WaitFits(hits: seq<nat>, now: nat, seconds: nat) {
    && seconds >= 1 && HasRoom(hits, now + 1000 * seconds)
    && (seconds > 1 ==> !HasRoom(hits, now + 1000 * (seconds - 1)))
  }

  /** Fewer than ten of the actor's invocations are less than a window old. */
  ghost predicate Fewer(log: seq<Hit>, actor: string, now: nat) {
    Passing(log, YoungerThanWindow(actor, now), |log|) < 10
  }

  ghost predicate WaitIsShortest(log: seq<Hit>, actor: string, now: nat, seconds: nat) {
    && seconds >= 1 && Fewer(log, actor, now + 1000 * seconds)
    && (seconds > 1 ==> !Fewer(log, actor, now + 1000 * (seconds - 1)))
  }

  lemma LaterKeeps(log: seq<Hit>, buckets: map<string, seq<nat>>, last: nat, now: nat)
    requires AllInv(log, buckets, last) && last <= now
    ensures AllInv(log, buckets, now)
  {
    forall a ensures ActorInv(HitsOf(log, a), BucketOf(buckets, a), now) {
      assert ActorInv(HitsOf(log, a), BucketOf(buckets, a), last);
    }
  }

  /** Only `actor`'s bucket and hits move. */
  lemma OthersKeep(log: seq<Hit>, log': seq<Hit>, buckets: map<string, seq<nat>>, last: nat, now: nat, actor: string, bucket: seq<nat>)
    requires AllInv(log, buckets, last) && last <= now
    requires log' == log || (log' == log + [Hit(actor, now)] && log'[..|log'| - 1] == log)
    requires ActorInv(HitsOf(log', actor), bucket, now)
    ensures AllInv(log', buckets[actor := bucket], now)
  {
    forall a ensures ActorInv(HitsOf(log', a), BucketOf(buckets[actor := bucket], a), now) {
      assert ActorInv(HitsOf(log, a), BucketOf(buckets, a), last);
      assert a != actor ==> HitsOf(log', a) == HitsOf(log, a);
    }
  }

  lemma RecentIsSorted(hits: seq<nat>, bucket: seq<nat>, last: nat)
    requires ActorInv(hits, bucket, last)
    ensures Sorted(bucket) && forall i :: 0 <= i < |bucket| ==> bucket[i] <= last
  {
    assert forall i :: 0 <= i < |bucket| ==> bucket[i] == hits[|hits| - |bucket| + i];
  }

  lemma KeptIsRecent(hits: seq<nat>, bucket: seq<nat>, kept: seq<nat>, before: nat, now: nat)
    requires Recent(hits, bucket, before) && before <= now && Dropped(bucket, kept, now)
    ensures Recent(hits, kept, now)
  {
    forall i | 0 <= i < |hits| - |kept| ensures hits[i] + RATE_WINDOW_MS <= now {
      if i >= |hits| - |bucket| {
        assert bucket[i - (|hits| - |bucket|)] == hits[i];
      }
    }
  }

  /** A bucket inside the window never holds more than the limit; when it holds that many, there is no room. */
  lemma FullBucket(hits: seq<nat>, kept: seq<nat>, now: nat)
    requires Spaced(hits) && Recent(hits, kept, now) && |kept| >= RATE_LIMIT_PER_WINDOW
    requires (forall i :: 0 <= i < |hits| ==> hits[i] <= now) && forall i :: 0 <= i < |kept| ==> now < kept[i] + RATE_WINDOW_MS
    ensures |kept| == RATE_LIMIT_PER_WINDOW && kept[0] == hits[|hits| - RATE_LIMIT_PER_WINDOW] && !HasRoom(hits, now)
  {
    var n := |hits|;
    assert forall k :: n - |kept| <= k < n ==> hits[k] == kept[k - (n - |kept|)];
    if n > RATE_LIMIT_PER_WINDOW {
      assert hits[n - 1 - RATE_LIMIT_PER_WINDOW] + RATE_WINDOW_MS <= hits[n - 1];
    }
  }

  function Max(a: nat, b: nat): nat {
    if a < b then b else a
  }

  /** Whole seconds until `oldest` leaves the window, at least one. */
  function RetryAfter(oldest: nat, now: nat): (seconds: nat)
    requires oldest <= now < oldest + RATE_WINDOW_MS
    ensures seconds >= 1 && now + 1000 * seconds >= oldest + RATE_WINDOW_MS
    ensures seconds > 1 ==> now + 1000 * (seconds - 1) < oldest + RATE_WINDOW_MS
  {
    Max(1, (RATE_WINDOW_MS - (now - oldest) + 999) / 1000)
  }

  lemma PushKeeps(hits: seq<nat>, kept: seq<nat>, now: nat)
    requires Sorted(hits) && Spaced(hits) && Recent(hits, kept, now) && |kept| < RATE_LIMIT_PER_WINDOW
    requires forall i :: 0 <= i < |hits| ==> hits[i] <= now
    ensures ActorInv(hits + [now], kept + [now], now) && HasRoom(hits, now)
  {
  }

  /** `kept` is the actor's bucket without what left the window. */
  ghost predicate Dropped(bucket: seq<nat>, kept: seq<nat>, now: nat) {
    && |kept| <= |bucket| && kept == bucket[|bucket| - |kept|..]
    && forall i :: 0 <= i < |bucket| ==> (now < bucket[i] + RATE_WINDOW_MS <==> i >= |bucket| - |kept|)
  }

  lemma RefusalKeeps(log: seq<Hit>, buckets: map<string, seq<nat>>, last: nat, now: nat, actor: string, kept: seq<nat>)
    requires AllInv(log, buckets, last) && last <= now && Dropped(BucketOf(buckets, actor), kept, now)
    requires |kept| >= RATE_LIMIT_PER_WINDOW
    ensures AllInv(log, buckets[actor := kept], now) && !HasRoom(HitsOf(log, actor), now)
    ensures kept[0] <= now < kept[0] + RATE_WINDOW_MS
    ensures WaitFits(HitsOf(log, actor), now, RetryAfter(kept[0], now))
  {
    var hits, bucket := HitsOf(log, actor), BucketOf(buckets, actor);
    assert ActorInv(hits, bucket, last);
    KeptIsRecent(hits, bucket, kept, last, now);
    assert forall i :: 0 <= i < |kept| ==> kept[i] == bucket[|bucket| - |kept| + i];
    FullBucket(hits, kept, now);
    OthersKeep(log, log, buckets, last, now, actor, kept);
  }

  lemma AllowanceKeeps(log: seq<Hit>, buckets: map<string, seq<nat>>, last: nat, now: nat, actor: string, kept: seq<nat>)
    requires AllInv(log, buckets, last) && last <= now && Dropped(BucketOf(buckets, actor), kept, now)
    requires |kept| < RATE_LIMIT_PER_WINDOW
    ensures AllInv(log + [Hit(actor, now)], buckets[actor := kept + [now]], now) && HasRoom(HitsOf(log, actor), now)
  {
    var hits, bucket := HitsOf(log, actor), BucketOf(buckets, actor);
    assert ActorInv(hits, bucket, last);
    KeptIsRecent(hits, bucket, kept, last, now);
    PushKeeps(hits, kept, now);
    assert (log + [Hit(actor, now)])[..|log|] == log;
    OthersKeep(log, log + [Hit(actor, now)], buckets, last, now, actor, kept + [now]);
  }

  lemma {:induction false} HitsCount(log: seq<Hit>, actor: string, from: nat, n: nat)
    requires n <= |log|
    ensures Passing(log, InWindowFrom(actor, from), n) == CountIn(HitsOf(log[..n], actor), from)
  {
    if n > 0 {
      HitsCount(log, actor, from, n - 1);
      assert log[..n][..n - 1] == log[..n - 1];
      var front := HitsOf(log[..n - 1], actor);
      if log[n - 1].actor == actor {
        assert (front + [log[n - 1].at])[..|front|] == front;
      } else {
        assert front + [] == front;
      }
    }
  }

  /** How many hits are less than a window old. */
  function Young(hits: seq<nat>, now: nat): nat {
    if hits == [] then 0 else Young(hits[..|hits| - 1], now) + if now < hits[|hits| - 1] + RATE_WINDOW_MS then 1 else 0
  }

  lemma {:induction false} YoungCount(log: seq<Hit>, actor: string, now: nat, n: nat)
    requires n <= |log|
    ensures Passing(log, YoungerThanWindow(actor, now), n) == Young(HitsOf(log[..n], actor), now)
  {
    if n > 0 {
      YoungCount(log, actor, now, n - 1);
      assert log[..n][..n - 1] == log[..n - 1];
      var front := HitsOf(log[..n - 1], actor);
      if log[n - 1].actor == actor {
        assert (front + [log[n - 1].at])[..|front|] == front;
      } else {
        assert front + [] == front;
      }
    }
  }

  /** Among sorted hits the young ones are the last. */
  lemma {:induction false} YoungAreLast(hits: seq<nat>, now: nat, k: nat)
    requires Sorted(hits) && 0 < k <= |hits|
    ensures Young(hits, now) >= k <==> now < hits[|hits| - k] + RATE_WINDOW_MS
    decreases |hits|
  {
    var front := hits[..|hits| - 1];
    if k > 1 {
      YoungAreLast(front, now, k - 1);
    } else if now >= hits[|hits| - 1] + RATE_WINDOW_MS {
      NoneYoung(front, now);
    }
    if k > 1 && now >= hits[|hits| - 1] + RATE_WINDOW_MS {
      NoneYoung(front, now);
    }
  }

  lemma {:induction false} NoneYoung(hits: seq<nat>, now: nat)
    requires forall i :: 0 <= i < |hits| ==> hits[i] + RATE_WINDOW_MS <= now
    ensures Young(hits, now) == 0
  {
    if hits != [] {
      NoneYoung(hits[..|hits| - 1], now);
    }
  }

  lemma {:induction false} YoungAtMost(hits: seq<nat>, now: nat)
    ensures Young(hits, now) <= |hits|
  {
    if hits != [] {
      YoungAtMost(hits[..|hits| - 1], now);
    }
  }

  /** There is room exactly when fewer than ten of the actor's invocations are less than a window old. */
  lemma RoomIff(log: seq<Hit>, buckets: map<string, seq<nat>>, last: nat, actor: string, now: nat)
    requires AllInv(log, buckets, last)
    ensures HasRoom(HitsOf(log, actor), now) <==> Fewer(log, actor, now)
  {
    var hits := HitsOf(log, actor);
    assert ActorInv(hits, BucketOf(buckets, actor), last);
    YoungCount(log, actor, now, |log|);
    assert log[..|log|] == log;
    if |hits| < 10 {
      YoungAtMost(hits, now);
    } else {
      YoungAreLast(hits, now, 10);
    }
  }

  lemma WaitIff(log: seq<Hit>, buckets: map<string, seq<nat>>, last: nat, actor: string, now: nat)
    requires AllInv(log, buckets, last)
    ensures forall s: nat :: WaitFits(HitsOf(log, actor), now, s) <==> WaitIsShortest(log, actor, now, s)
  {
    forall s: nat ensures WaitFits(HitsOf(log, actor), now, s) <==> WaitIsShortest(log, actor, now, s) {
      RoomIff(log, buckets, last, actor, now + 1000 * s);
      if s > 1 {
        RoomIff(log, buckets, last, actor, now + 1000 * (s - 1));
      }
    }
  }

  lemma {:induction false} CountConcat(a: seq<nat>, b: seq<nat>, from: nat)
    ensures CountIn(a + b, from) == CountIn(a, from) + CountIn(b, from)
    decreases |b|
  {
    if b == [] {
      assert a + b == a;
    } else {
      assert (a + b)[..|a + b| - 1] == a + b[..|b| - 1];
      CountConcat(a, b[..|b| - 1], from);
    }
  }

  lemma {:induction false} CountAtMost(hits: seq<nat>, from: nat)
    ensures CountIn(hits, from) <= |hits|
  {
    if hits != [] {
      CountAtMost(hits[..|hits| - 1], from);
    }
  }

  lemma {:induction false} NoneBefore(hits: seq<nat>, from: nat)
    requires forall i :: 0 <= i < |hits| ==> hits[i] < from
    ensures CountIn(hits, from) == 0
  {
    if hits != [] {
      NoneBefore(hits[..|hits| - 1], from);
    }
  }

  lemma {:induction false} SpacedBoundsCount(hits: seq<nat>, from: nat)
    requires Sorted(hits) && Spaced(hits)
    ensures CountIn(hits, from) <= RATE_LIMIT_PER_WINDOW
  {
    var n := |hits|;
    if n <= RATE_LIMIT_PER_WINDOW {
      CountAtMost(hits, from);
    } else if hits[n - 1] < from + RATE_WINDOW_MS {
      var old_, late := hits[..n - RATE_LIMIT_PER_WINDOW], hits[n - RATE_LIMIT_PER_WINDOW..];
      assert hits == old_ + late;
      assert hits[n - 1 - RATE_LIMIT_PER_WINDOW] + RATE_WINDOW_MS <= hits[n - 1];
      CountConcat(old_, late, from);
      NoneBefore(old_, from);
      CountAtMost(late, from);
    } else {
      SpacedBoundsCount(hits[..n - 1], from);
    }
  }
}
