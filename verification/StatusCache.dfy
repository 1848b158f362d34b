/**
 * The two-level status cache, as interleaved steps of any number of broker containers.
 *
 * An answer is represented by `seen`, the configuration version its computation started from: what
 * it reports may be newer, never older. A container serves one request at a time.
 */
module StatusCache {
  import opened Text
  import opened ConfigStore

  const STATUS_CACHE_MS: nat := 30000

  datatype Copy = Copy(at: nat, seen: nat)

  /** Where a container's request stands; `start` is the clock reading the request began with. */
  datatype Phase =
    | Idle
    | AskedShared(start: nat)
    | Missed(start: nat)
    | Computing(start: nat, gen: Option<nat>, seen: nat)
    | Publishing(start: nat, gen: Option<nat>, seen: nat)
    | Mutating

  /** `own`: the version at the container's own latest successful clear. */
  datatype Box = Box(local: Option<Copy>, phase: Phase, own: nat)

  /** A successful clear: when, and the version it found. */
  datatype Clear = Clear(at: nat, version: nat)

  /** An answer given: the request's start, what it reflects, and the container's own latest clear. */
  datatype Answer = Answer(start: nat, seen: nat, own: nat)

  datatype World = World(
    clock: nat, version: nat, row: StatusRow<nat>, boxes: map<nat, Box>, clears: seq<Clear>, answers: seq<Answer>)

  datatype Event =
    | Tick(ms: nat)
    | Boot(box: nat)
    | Crash(box: nat)
    | StartStatus(box: nat)
    | ReadShared(box: nat, fault: bool)
    | ReadGen(box: nat, fault: bool)
    | Computed(box: nat)
    | ComputeFailed(box: nat)
    | Put(box: nat, fault: bool)
    | OpenMutation(box: nat, fault: bool)
    | Write(box: nat)
    | CloseMutation(box: nat, fault: bool)
    | Redeliver(box: nat, fault: bool)

  // ---- the steps --------------------------------------------------------------------------------------

  predicate LocalLive(local: Option<Copy>, now: nat) {
    local.Some? && now < local.value.at + STATUS_CACHE_MS
  }

  function SetBox(w: World, box: nat, b: Box): World {
    w.(boxes := w.boxes[box := b])
  }

  function Answered(w: World, b: Box, start: nat, seen: nat): World {
    w.(answers := w.answers + [Answer(start, seen, b.own)])
  }

  /** Drop the local copy, then clear the shared row; a failed clear is logged and passed over. */
  function Invalidate(w: World, box: nat, b: Box, fault: bool, phase: Phase): World {
    if fault then SetBox(w, box, b.(local := None, phase := phase))
    else
      SetBox(w, box, Box(None, phase, w.version)).(
      row := Invalidated(w.row), clears := w.clears + [Clear(w.clock, w.version)])
  }

  ghost predicate Step(w: World, e: Event, w': World) {
    match e
    case Tick(ms) => w' == w.(clock := w.clock + ms)
    case Boot(box) => box !in w.boxes && w' == SetBox(w, box, Box(None, Idle, 0))
    case Crash(box) => w' == w.(boxes := w.boxes - {box})
    case _ => e.box in w.boxes && BoxStep(w, e, w.boxes[e.box], w')
  }

  ghost predicate BoxStep(w: World, e: Event, b: Box, w': World) {
    match e
    case StartStatus(box) =>
      && b.phase.Idle?
      && w' == if LocalLive(b.local, w.clock) then Answered(w, b, w.clock, b.local.value.seen)
               else SetBox(w, box, b.(phase := AskedShared(w.clock)))
    case ReadShared(box, fault) =>
      && b.phase.AskedShared?
      && var shared := if fault then None else Live(w.row, STATUS_CACHE_MS, b.phase.start);
         w' == if shared.Some?
               then Answered(SetBox(w, box, Box(Some(Copy(b.phase.start, shared.value)), Idle, b.own)), b, b.phase.start, shared.value)
               else SetBox(w, box, b.(phase := Missed(b.phase.start)))
    case ReadGen(box, fault) =>
      && b.phase.Missed?
      && w' == SetBox(w, box, b.(phase := Computing(b.phase.start, if fault then None else Some(Generation(w.row)), w.version)))
    case Computed(box) =>
      && b.phase.Computing?
      && w' == SetBox(w, box, Box(Some(Copy(b.phase.start, b.phase.seen)), Publishing(b.phase.start, b.phase.gen, b.phase.seen), b.own))
    case ComputeFailed(box) =>
      b.phase.Computing? && w' == SetBox(w, box, b.(phase := Idle))
    case Put(box, fault) =>
      && b.phase.Publishing?
      && w' == Answered(SetBox(w, box, b.(phase := Idle)), b, b.phase.start, b.phase.seen).(
               row := if fault then w.row else Published(w.row, b.phase.seen, b.phase.start, b.phase.gen))
    case OpenMutation(box, fault) => b.phase.Idle? && w' == Invalidate(w, box, b, fault, Mutating)
    case Write(_) => b.phase.Mutating? && w' == w.(version := w.version + 1)
    case CloseMutation(box, fault) => b.phase.Mutating? && w' == Invalidate(w, box, b, fault, Idle)
    // a redelivery clears once and changes nothing
    case Redeliver(box, fault) => b.phase.Idle? && w' == Invalidate(w, box, b, fault, Idle)
    case _ => false
  }

  ghost predicate Init(w: World) {
    // an epoch clock: a row stamped 0 is long dead; versions count the writes since
    w.clock >= STATUS_CACHE_MS && w.version == 0 && w.row == NO_STATUS && w.boxes == map[] && w.clears == [] && w.answers == []
  }

  ghost predicate Steps(ws: seq<World>, es: seq<Event>) {
    |ws| == |es| + 1 && forall i :: 0 <= i < |es| ==> Step(ws[i], es[i], ws[i + 1])
  }

  ghost predicate IsRun(ws: seq<World>, es: seq<Event>) {
    Steps(ws, es) && Init(ws[0])
  }

  /** The event is a generation read that failed. */
  predicate Faults(e: Event) {
    e.ReadGen? && e.fault
  }

  /**
   * A generation read may fail when its request has run for a cache period, to the millisecond: what
   * it goes on to publish is then too old to be served from the shared row.
   */
  predicate Harmless(w: World, e: Event) {
    Faults(e) && e.box in w.boxes && w.boxes[e.box].phase.Missed? ==>
      w.boxes[e.box].phase.start + STATUS_CACHE_MS <= w.clock + 1
  }

  /** What is known of the generation reads so far: none failed, every failure was harmless, or nothing. */
  datatype Level = AllFenced | AllHarmless | Anything

  predicate Allows(level: Level, w: World, e: Event) {
    match level
    case AllFenced => !Faults(e)
    case AllHarmless => Harmless(w, e)
    case Anything => true
  }

  ghost predicate AllAllowed(level: Level, ws: seq<World>, es: seq<Event>, n: nat) {
    forall i :: 0 <= i < n && i < |es| && i < |ws| ==> Allows(level, ws[i], es[i])
  }

  // ---- the invariant ----------------------------------------------------------------------------------

  /** `seen` reflects every clear at least `slack` before `at`. */
  ghost predicate Fresh(clears: seq<Clear>, at: nat, seen: nat, slack: nat) {
    forall i :: 0 <= i < |clears| && clears[i].at + slack <= at ==> clears[i].version <= seen
  }

  /** `seen` reflects every clear. */
  ghost predicate Current(clears: seq<Clear>, seen: nat) {
    forall i :: 0 <= i < |clears| ==> clears[i].version <= seen
  }

  /** How far a local copy's own timestamp may overstate what it reflects. */
  function Slack(level: Level): nat {
    if level.Anything? then STATUS_CACHE_MS else 1
  }

  /** `at` lies a cache period back, and `seen` reflects every clear up to the end of that period. */
  ghost predicate LateFresh(w: World, at: nat, seen: nat) {
    at + STATUS_CACHE_MS - 1 <= w.clock && Fresh(w.clears, at + STATUS_CACHE_MS - 1, seen, 1)
  }

  /** What a published answer with timestamp `at` reflects. */
  ghost predicate Reflects(w: World, at: nat, seen: nat, level: Level) {
    match level
    case AllFenced => Current(w.clears, seen)
    case AllHarmless => Current(w.clears, seen) || LateFresh(w, at, seen)
    case Anything => Fresh(w.clears, at, seen, 1)
  }

  ghost predicate RowInv(w: World, level: Level) {
    w.row.at.Some? && w.row.at.value != 0 && w.row.payload.Some? ==>
      && w.row.at.value <= w.clock && w.row.payload.value <= w.version
      && Reflects(w, w.row.at.value, w.row.payload.value, level)
  }

  /** An answer in the making, fenced on `gen`. */
  ghost predicate MakingInv(w: World, own: nat, start: nat, gen: Option<nat>, seen: nat, level: Level) {
    && STATUS_CACHE_MS <= start <= w.clock && own <= seen <= w.version && Fresh(w.clears, start, seen, 1)
    && (gen.None? ==> !level.AllFenced? && (level.AllHarmless? ==> LateFresh(w, start, seen)))
    && (gen.Some? ==> gen.value <= Generation(w.row) && (gen.value == Generation(w.row) ==> Current(w.clears, seen)))
  }

  ghost predicate BoxInv(w: World, b: Box, level: Level) {
    && (b.local.Some? ==> b.local.value.seen <= w.version && b.local.value.at <= w.clock
                          && Fresh(w.clears, b.local.value.at, b.local.value.seen, Slack(level)))
    && (b.own == 0 || exists i :: 0 <= i < |w.clears| && w.clears[i].version == b.own)
    && match b.phase
       case AskedShared(start) => STATUS_CACHE_MS <= start <= w.clock
       case Missed(start) => STATUS_CACHE_MS <= start <= w.clock
       case Computing(start, gen, seen) => MakingInv(w, b.own, start, gen, seen, level)
       case Publishing(start, gen, seen) => MakingInv(w, b.own, start, gen, seen, level)
       case _ => true
  }

  ghost predicate AnswerInv(w: World, a: Answer, level: Level) {
    && a.start <= w.clock && a.seen <= w.version
    && Fresh(w.clears, a.start, a.seen, STATUS_CACHE_MS + Slack(level) - 1)
  }

  ghost predicate LogInv(w: World) {
    forall i :: 0 <= i < |w.clears| ==> w.clears[i].at <= w.clock && w.clears[i].version <= w.version
  }

  ghost predicate Inv(w: World, level: Level) {
    && w.clock >= STATUS_CACHE_MS && LogInv(w) && RowInv(w, level)
    && (forall c :: c in w.boxes ==> BoxInv(w, w.boxes[c], level))
    && forall i :: 0 <= i < |w.answers| ==> AnswerInv(w, w.answers[i], level)
  }

  // ---- preservation -----------------------------------------------------------------------------------

  lemma LaterKeeps(w: World, w': World, level: Level)
    requires Inv(w, level) && w.clock <= w'.clock && w.version <= w'.version
    requires w' == w.(clock := w'.clock, version := w'.version)
    ensures Inv(w', level)
  {
    forall c | c in w'.boxes ensures BoxInv(w', w'.boxes[c], level) {
      assert BoxInv(w, w.boxes[c], level);
    }
    forall i | 0 <= i < |w'.answers| ensures AnswerInv(w', w'.answers[i], level) {
      assert AnswerInv(w, w.answers[i], level);
    }
  }

  /** A clear is logged at the present clock, so nothing older is held to it. */
  lemma FreshAfterClear(clears: seq<Clear>, c: Clear, at: nat, seen: nat, slack: nat)
    requires Fresh(clears, at, seen, slack) && slack >= 1 && at <= c.at
    ensures Fresh(clears + [c], at, seen, slack)
  {
  }

  lemma MakingAfterClear(w: World, w': World, own: nat, start: nat, gen: Option<nat>, seen: nat, level: Level)
    requires LogInv(w) && MakingInv(w, own, start, gen, seen, level)
    requires w'.clears == w.clears + [Clear(w.clock, w.version)] && w'.clock == w.clock && w'.version == w.version
    requires w'.row == Invalidated(w.row)
    ensures MakingInv(w', own, start, gen, seen, level)
  {
    var c := Clear(w.clock, w.version);
    FreshAfterClear(w.clears, c, start, seen, 1);
    if LateFresh(w, start, seen) {
      FreshAfterClear(w.clears, c, start + STATUS_CACHE_MS - 1, seen, 1);
    }
  }

  lemma OtherBoxAfterClear(w: World, w': World, b: Box, level: Level)
    requires LogInv(w) && BoxInv(w, b, level)
    requires w'.clears == w.clears + [Clear(w.clock, w.version)] && w'.clock == w.clock && w'.version == w.version
    requires w'.row == Invalidated(w.row)
    ensures BoxInv(w', b, level)
  {
    var c := Clear(w.clock, w.version);
    if b.local.Some? {
      FreshAfterClear(w.clears, c, b.local.value.at, b.local.value.seen, Slack(level));
    }
    if b.own != 0 {
      var i :| 0 <= i < |w.clears| && w.clears[i].version == b.own;
      assert w'.clears[i].version == b.own;
    }
    match b.phase {
      case Computing(start, gen, seen) => MakingAfterClear(w, w', b.own, start, gen, seen, level);
      case Publishing(start, gen, seen) => MakingAfterClear(w, w', b.own, start, gen, seen, level);
      case _ =>
    }
  }

  lemma AnswerAfterClear(w: World, w': World, a: Answer, level: Level)
    requires AnswerInv(w, a, level)
    requires w'.clears == w.clears + [Clear(w.clock, w.version)] && w'.clock == w.clock && w'.version == w.version
    ensures AnswerInv(w', a, level)
  {
    FreshAfterClear(w.clears, Clear(w.clock, w.version), a.start, a.seen, STATUS_CACHE_MS + Slack(level) - 1);
  }

  lemma InvalidateKeeps(w: World, box: nat, fault: bool, phase: Phase, level: Level)
    requires Inv(w, level) && box in w.boxes && phase in {Idle, Mutating}
    ensures Inv(Invalidate(w, box, w.boxes[box], fault, phase), level)
  {
    var w' := Invalidate(w, box, w.boxes[box], fault, phase);
    assert BoxInv(w, w.boxes[box], level);
    if fault {
      OneBoxKeeps(w, box, w.boxes[box].(local := None, phase := phase), level);
    } else {
      assert w'.clears[|w.clears|].version == w.version;
      forall c | c in w'.boxes ensures BoxInv(w', w'.boxes[c], level) {
        if c != box {
          OtherBoxAfterClear(w, w', w.boxes[c], level);
        }
      }
      forall i | 0 <= i < |w'.answers| ensures AnswerInv(w', w'.answers[i], level) {
        AnswerAfterClear(w, w', w.answers[i], level);
      }
    }
  }

  lemma OneBoxKeeps(w: World, box: nat, b: Box, level: Level)
    requires Inv(w, level) && BoxInv(w, b, level)
    ensures Inv(SetBox(w, box, b), level)
  {
    var w' := SetBox(w, box, b);
    forall c | c in w'.boxes ensures BoxInv(w', w'.boxes[c], level) {
      assert c != box ==> BoxInv(w, w.boxes[c], level);
      SameStore(w, w', w'.boxes[c], level);
    }
    forall i | 0 <= i < |w'.answers| ensures AnswerInv(w', w'.answers[i], level) {
      assert AnswerInv(w, w.answers[i], level);
    }
  }

  lemma SameStore(w: World, w': World, b: Box, level: Level)
    requires BoxInv(w, b, level)
    requires w'.clock == w.clock && w'.version == w.version && w'.row == w.row && w'.clears == w.clears
    ensures BoxInv(w', b, level)
  {
  }

  lemma AnswerKeeps(w: World, b: Box, start: nat, seen: nat, level: Level)
    requires Inv(w, level) && AnswerInv(w, Answer(start, seen, b.own), level)
    ensures Inv(Answered(w, b, start, seen), level)
  {
    var w' := Answered(w, b, start, seen);
    forall c | c in w'.boxes ensures BoxInv(w', w'.boxes[c], level) {
      assert BoxInv(w, w.boxes[c], level);
      SameStore(w, w', w.boxes[c], level);
    }
    forall i | 0 <= i < |w'.answers| ensures AnswerInv(w', w'.answers[i], level) {
      assert i < |w.answers| ==> AnswerInv(w, w.answers[i], level);
    }
  }

  /** A fresh-enough copy served within its time reflects every clear a full period older than the request. */
  lemma LocalHitIsFresh(w: World, b: Box, level: Level)
    requires Inv(w, level) && BoxInv(w, b, level) && LocalLive(b.local, w.clock)
    ensures AnswerInv(w, Answer(w.clock, b.local.value.seen, b.own), level)
  {
    var seen := b.local.value.seen;
    forall i | 0 <= i < |w.clears| && w.clears[i].at + STATUS_CACHE_MS + Slack(level) - 1 <= w.clock
      ensures w.clears[i].version <= seen
    {
      assert w.clears[i].at + Slack(level) <= b.local.value.at;
    }
  }

  /** What a live shared row gives is fit to be copied locally and answered. */
  lemma SharedHitIsFresh(w: World, b: Box, start: nat, seen: nat, level: Level)
    requires Inv(w, level) && BoxInv(w, b, level) && b.phase == AskedShared(start)
    requires Live(w.row, STATUS_CACHE_MS, start) == Some(seen)
    ensures BoxInv(w, Box(Some(Copy(start, seen)), Idle, b.own), level)
    ensures AnswerInv(w, Answer(start, seen, b.own), level)
  {
    assert w.row.at.value != 0;
    if level.AllHarmless? && LateFresh(w, w.row.at.value, seen) {
      assert start <= w.row.at.value + STATUS_CACHE_MS - 1;
    } else if !level.Anything? {
      assert Current(w.clears, seen);
    } else {
      forall i | 0 <= i < |w.clears| && w.clears[i].at + STATUS_CACHE_MS <= start ensures w.clears[i].version <= seen {
        assert w.clears[i].at + 1 <= w.row.at.value;
      }
    }
  }

  /** Publishing an answer in the making, or dropping it at the fence, keeps every promise. */
  lemma PublishKeeps(w: World, own: nat, start: nat, gen: Option<nat>, seen: nat, level: Level)
    requires Inv(w, level) && MakingInv(w, own, start, gen, seen, level)
    ensures Inv(w.(row := Published(w.row, seen, start, gen)), level)
  {
    var u := w.(row := Published(w.row, seen, start, gen));
    assert Generation(u.row) == Generation(w.row);
    forall c | c in u.boxes ensures BoxInv(u, u.boxes[c], level) {
      assert BoxInv(w, w.boxes[c], level);
    }
    forall i | 0 <= i < |u.answers| ensures AnswerInv(u, u.answers[i], level) {
      assert AnswerInv(w, w.answers[i], level);
    }
  }

  lemma PutKeeps(w: World, box: nat, fault: bool, w': World, level: Level)
    requires Inv(w, level) && Step(w, Put(box, fault), w')
    ensures Inv(w', level)
  {
    var b := w.boxes[box];
    assert BoxInv(w, b, level);
    OneBoxKeeps(w, box, b.(phase := Idle), level);
    var u := SetBox(w, box, b.(phase := Idle));
    if !fault {
      PublishKeeps(u, b.own, b.phase.start, b.phase.gen, b.phase.seen, level);
    }
    AnswerKeeps(u.(row := w'.row), b, b.phase.start, b.phase.seen, level);
  }

  lemma ReadSharedKeeps(w: World, box: nat, fault: bool, w': World, level: Level)
    requires Inv(w, level) && Step(w, ReadShared(box, fault), w')
    ensures Inv(w', level)
  {
    var b := w.boxes[box];
    assert BoxInv(w, b, level);
    var shared := if fault then None else Live(w.row, STATUS_CACHE_MS, b.phase.start);
    if shared.Some? {
      SharedHitIsFresh(w, b, b.phase.start, shared.value, level);
      var b' := Box(Some(Copy(b.phase.start, shared.value)), Idle, b.own);
      OneBoxKeeps(w, box, b', level);
      AnswerKeeps(SetBox(w, box, b'), b, b.phase.start, shared.value, level);
    } else {
      OneBoxKeeps(w, box, b.(phase := Missed(b.phase.start)), level);
    }
  }

  lemma StartStatusKeeps(w: World, box: nat, w': World, level: Level)
    requires Inv(w, level) && Step(w, StartStatus(box), w')
    ensures Inv(w', level)
  {
    var b := w.boxes[box];
    assert BoxInv(w, b, level);
    if LocalLive(b.local, w.clock) {
      LocalHitIsFresh(w, b, level);
      AnswerKeeps(w, b, w.clock, b.local.value.seen, level);
    } else {
      OneBoxKeeps(w, box, b.(phase := AskedShared(w.clock)), level);
    }
  }

  lemma StepKeeps(w: World, e: Event, w': World, level: Level)
    requires Inv(w, level) && Step(w, e, w') && Allows(level, w, e)
    ensures Inv(w', level)
  {
    if e.Tick? {
      LaterKeeps(w, w', level);
    } else if e.Boot? {
      OneBoxKeeps(w, e.box, Box(None, Idle, 0), level);
    } else if e.Crash? {
      CrashKeeps(w, e.box, level);
    } else {
      var b := w.boxes[e.box];
      assert BoxInv(w, b, level);
      match e {
        case StartStatus(box) => StartStatusKeeps(w, box, w', level);
        case ReadShared(box, fault) => ReadSharedKeeps(w, box, fault, w', level);
        case ReadGen(box, fault) =>
          OneBoxKeeps(w, box, b.(phase := Computing(b.phase.start, if fault then None else Some(Generation(w.row)), w.version)), level);
        case Computed(box) =>
          OneBoxKeeps(w, box, Box(Some(Copy(b.phase.start, b.phase.seen)), Publishing(b.phase.start, b.phase.gen, b.phase.seen), b.own), level);
        case ComputeFailed(box) => OneBoxKeeps(w, box, b.(phase := Idle), level);
        case Put(box, fault) => PutKeeps(w, box, fault, w', level);
        case OpenMutation(box, fault) => InvalidateKeeps(w, box, fault, Mutating, level);
        case Write(_) => LaterKeeps(w, w', level);
        case CloseMutation(box, fault) => InvalidateKeeps(w, box, fault, Idle, level);
        case Redeliver(box, fault) => InvalidateKeeps(w, box, fault, Idle, level);
      }
    }
  }

  lemma CrashKeeps(w: World, box: nat, level: Level)
    requires Inv(w, level)
    ensures Inv(w.(boxes := w.boxes - {box}), level)
  {
    var w' := w.(boxes := w.boxes - {box});
    forall c | c in w'.boxes ensures BoxInv(w', w'.boxes[c], level) {
      assert BoxInv(w, w.boxes[c], level);
    }
    forall i | 0 <= i < |w'.answers| ensures AnswerInv(w', w'.answers[i], level) {
      assert AnswerInv(w, w.answers[i], level);
    }
  }

  lemma {:induction false} PathInv(ws: seq<World>, es: seq<Event>, n: nat, level: Level)
    requires Steps(ws, es) && Inv(ws[0], level) && n < |ws| && AllAllowed(level, ws, es, n)
    ensures Inv(ws[n], level)
  {
    if n > 0 {
      PathInv(ws, es, n - 1, level);
      StepKeeps(ws[n - 1], es[n - 1], ws[n], level);
    }
  }

  lemma RunInv(ws: seq<World>, es: seq<Event>, n: nat, level: Level)
    requires IsRun(ws, es) && n < |ws| && AllAllowed(level, ws, es, n)
    ensures Inv(ws[n], level)
  {
    PathInv(ws, es, n, level);
  }

  // ---- what a reader is promised ------------------------------------------------------------------------

  /** No request that started STATUS_CACHE_MS or more after a clear was answered from before it. */
  ghost predicate NothingStale(w: World) {
    forall a, c :: a in w.answers && c in w.clears && a.start >= c.at + STATUS_CACHE_MS ==> c.version <= a.seen
  }

  lemma InvIsFresh(w: World, level: Level)
    requires Inv(w, level) && !level.Anything?
    ensures NothingStale(w) && forall a :: a in w.answers ==> a.seen <= w.version
  {
    forall a | a in w.answers ensures a.seen <= w.version {
      var i :| 0 <= i < |w.answers| && w.answers[i] == a;
      assert AnswerInv(w, w.answers[i], level);
    }
    forall a, c | a in w.answers && c in w.clears && a.start >= c.at + STATUS_CACHE_MS ensures c.version <= a.seen {
      var i :| 0 <= i < |w.answers| && w.answers[i] == a;
      assert AnswerInv(w, w.answers[i], level);
      var k :| 0 <= k < |w.clears| && w.clears[k] == c;
      assert w.clears[k].at + (STATUS_CACHE_MS + Slack(level) - 1) <= a.start;
    }
  }

  /**
   * In every run whose failed generation reads are harmless, no status request that starts
   * STATUS_CACHE_MS or more after a clear gets an answer from before it, in any container, whatever
   * else is in flight.
   */
  lemma NoStaleAnswer(ws: seq<World>, es: seq<Event>, n: nat, a: Answer, c: Clear)
    requires IsRun(ws, es) && n < |ws| && AllAllowed(AllHarmless, ws, es, n)
    requires a in ws[n].answers && c in ws[n].clears && a.start >= c.at + STATUS_CACHE_MS
    ensures c.version <= a.seen <= ws[n].version
  {
    RunInv(ws, es, n, AllHarmless);
    InvIsFresh(ws[n], AllHarmless);
  }

  /** Whenever every write so far has been followed by a clear (or none happened yet), a live shared row reflects exactly the current configuration. */
  lemma QuiescentRowIsCurrent(ws: seq<World>, es: seq<Event>, n: nat, now: nat)
    requires IsRun(ws, es) && n < |ws| && AllAllowed(AllFenced, ws, es, n)
    requires ws[n].version == 0 || exists c :: c in ws[n].clears && c.version == ws[n].version
    requires now >= STATUS_CACHE_MS && Live(ws[n].row, STATUS_CACHE_MS, now).Some?
    ensures Live(ws[n].row, STATUS_CACHE_MS, now) == Some(ws[n].version)
  {
    RunInv(ws, es, n, AllFenced);
    var w := ws[n];
    assert w.row.at.value != 0;
    if w.version != 0 {
      var c :| c in w.clears && c.version == w.version;
      var k :| 0 <= k < |w.clears| && w.clears[k] == c;
    }
  }

  /** Even when generation reads fail and publishes go unfenced, staleness lasts less than two periods. */
  lemma UnfencedStalenessIsBounded(ws: seq<World>, es: seq<Event>, n: nat, a: Answer, c: Clear)
    requires IsRun(ws, es) && n < |ws|
    requires a in ws[n].answers && c in ws[n].clears && a.start >= c.at + 2 * STATUS_CACHE_MS - 1
    ensures c.version <= a.seen
  {
    RunInv(ws, es, n, Anything);
    var w := ws[n];
    var i :| 0 <= i < |w.answers| && w.answers[i] == a;
    assert AnswerInv(w, w.answers[i], Anything);
    var k :| 0 <= k < |w.clears| && w.clears[k] == c;
    assert w.clears[k].at + (STATUS_CACHE_MS + Slack(Anything) - 1) <= a.start;
  }

  // ---- exactly which failed reads do harm -----------------------------------------------------------------

  ghost predicate GoesOnFenced(w: World, ws: seq<World>, es: seq<Event>) {
    Steps(ws, es) && ws[0] == w && forall i :: 0 <= i < |es| ==> !Faults(es[i])
  }

  /** However the run goes on, as long as no further generation read fails, nothing stale is answered. */
  ghost predicate StaysFresh(w: World) {
    forall ws, es :: GoesOnFenced(w, ws, es) ==> NothingStale(ws[|es|])
  }

  /**
   * The condition is exact. After any run whose failed generation reads were harmless and one more
   * step, nothing stale is answered however the run goes on if and only if that step, too, is no
   * generation read that fails before its request has run for a cache period.
   */
  lemma FaultIsSafeIff(ws: seq<World>, es: seq<Event>, e: Event, w': World)
    requires IsRun(ws, es) && AllAllowed(AllHarmless, ws, es, |es|) && Step(ws[|es|], e, w')
    ensures StaysFresh(w') <==> Harmless(ws[|es|], e)
  {
    var w := ws[|es|];
    RunInv(ws, es, |es|, AllHarmless);
    if Harmless(w, e) {
      StepKeeps(w, e, w', AllHarmless);
      forall ws', es' | GoesOnFenced(w', ws', es') ensures NothingStale(ws'[|es'|]) {
        PathInv(ws', es', |es'|, AllHarmless);
        InvIsFresh(ws'[|es'|], AllHarmless);
      }
    } else {
      assert BoxInv(w, w.boxes[e.box], AllHarmless);
      var start := w.boxes[e.box].phase.start;
      var ws', es', a, c := EarlyFaultMisleads(w', e.box, start, w.version);
      assert !NothingStale(ws'[|es'|]);
    }
  }

  lemma FreshBox(taken: set<nat>) returns (box: nat)
    ensures forall x :: x in taken ==> x < box
  {
    box := 0;
    if taken != {} {
      var some :| some in taken;
      var rest := FreshBox(taken - {some});
      box := if some < rest then rest else some + 1;
      forall x | x in taken ensures x < box {
        assert x == some || x in taken - {some};
      }
    }
  }

  lemma Joined(ws1: seq<World>, es1: seq<Event>, ws2: seq<World>, es2: seq<Event>)
    requires Steps(ws1, es1) && Steps(ws2, es2) && ws1[|es1|] == ws2[0]
    ensures Steps(ws1 + ws2[1..], es1 + es2) && (ws1 + ws2[1..])[|es1 + es2|] == ws2[|es2|]
    ensures (ws1 + ws2[1..])[0] == ws1[0]
  {
    var ws, es := ws1 + ws2[1..], es1 + es2;
    forall i | 0 <= i < |es| ensures Step(ws[i], es[i], ws[i + 1]) {
      if i < |es1| {
        assert Step(ws1[i], es1[i], ws1[i + 1]);
      } else {
        assert Step(ws2[i - |es1|], es2[i - |es1|], ws2[i - |es1| + 1]);
      }
    }
  }

  /** An answer is in the making without a fence. */
  predicate Unfenced(w: World, box: nat, start: nat, seen: nat) {
    box in w.boxes && w.boxes[box].phase == Computing(start, None, seen)
  }

  /** Meanwhile a second container moves the configuration on, and the answer is computed. */
  lemma MutationMeanwhile(w: World, box: nat, other: nat, start: nat, seen: nat) returns (ws: seq<World>, es: seq<Event>)
    requires Unfenced(w, box, start, seen) && other !in w.boxes
    ensures GoesOnFenced(w, ws, es)
    ensures var w' := ws[|es|];
            && w'.clock == w.clock && Clear(w.clock, w.version + 1) in w'.clears && {box, other} <= w'.boxes.Keys
            && w'.boxes[other] == Box(None, Idle, w.version + 1) && w'.boxes[box].phase == Publishing(start, None, seen)
  {
    var w1 := SetBox(w, other, Box(None, Idle, 0));
    var w2 := Invalidate(w1, other, w1.boxes[other], false, Mutating);
    var w3 := w2.(version := w.version + 1);
    var w4 := Invalidate(w3, other, w3.boxes[other], false, Idle);
    var w5 := SetBox(w4, box, Box(Some(Copy(start, seen)), Publishing(start, None, seen), w.boxes[box].own));
    assert w4.clears[|w4.clears| - 1] == Clear(w.clock, w.version + 1);
    ws := [w, w1, w2, w3, w4, w5];
    es := [Boot(other), OpenMutation(other, false), Write(other), CloseMutation(other, false), Computed(box)];
  }

  /** The answer is published, and copied by the second container in the row's last millisecond. */
  lemma PublishedAndCopied(w: World, box: nat, other: nat, start: nat, seen: nat)
    returns (ws: seq<World>, es: seq<Event>, a: Answer)
    requires {box, other} <= w.boxes.Keys && box != other && w.boxes[box].phase == Publishing(start, None, seen)
    requires w.boxes[other].local.None? && w.boxes[other].phase.Idle? && 0 < start <= w.clock < start + STATUS_CACHE_MS
    ensures GoesOnFenced(w, ws, es)
    ensures var w', t := ws[|es|], start + STATUS_CACHE_MS - 1;
            && w'.clock == t && w'.clears == w.clears && a in w'.answers && a == Answer(t, seen, w.boxes[other].own)
            && other in w'.boxes && w'.boxes[other] == Box(Some(Copy(t, seen)), Idle, w.boxes[other].own)
  {
    var b, idle, t := w.boxes[box], w.boxes[other], start + STATUS_CACHE_MS - 1;
    var row := StatusRow(Some(start), Some(seen), w.row.gen);
    var w1 := Answered(SetBox(w, box, b.(phase := Idle)), b, start, seen).(row := row);
    var w2 := w1.(clock := t);
    var w3 := SetBox(w2, other, idle.(phase := AskedShared(t)));
    var w4 := Answered(SetBox(w3, other, Box(Some(Copy(t, seen)), Idle, idle.own)), w3.boxes[other], t, seen);
    assert Live(w3.row, STATUS_CACHE_MS, t) == Some(seen);
    a := Answer(t, seen, idle.own);
    assert w4.answers[|w3.answers|] == a;
    ws := [w, w1, w2, w3, w4];
    es := [Put(box, false), Tick(t - w.clock), StartStatus(other), ReadShared(other, false)];
  }

  /** A copy is served up to its own last millisecond. */
  lemma ServedToTheEnd(w: World, other: nat, seen: nat) returns (ws: seq<World>, es: seq<Event>, a: Answer)
    requires other in w.boxes && w.boxes[other].local == Some(Copy(w.clock, seen)) && w.boxes[other].phase.Idle?
    ensures GoesOnFenced(w, ws, es) && ws[|es|].clears == w.clears && a in ws[|es|].answers
    ensures a.start == w.clock + STATUS_CACHE_MS - 1 && a.seen == seen
  {
    var t := w.clock + STATUS_CACHE_MS - 1;
    a := Answer(t, seen, w.boxes[other].own);
    var w1 := w.(clock := t);
    var w2 := Answered(w1, w.boxes[other], t, seen);
    assert w2.answers[|w1.answers|] == a;
    ws := [w, w1, w2];
    es := [Tick(STATUS_CACHE_MS - 1), StartStatus(other)];
  }

  /**
   * A request lost its fence before it had run for a cache period: another container changes the
   * configuration, the old answer is published over the clear, copied just before the row dies, and
   * served just before the copy does.
   */
  lemma EarlyFaultMisleads(w: World, box: nat, start: nat, seen: nat)
    returns (ws: seq<World>, es: seq<Event>, a: Answer, c: Clear)
    requires Unfenced(w, box, start, seen) && seen == w.version && 0 < start <= w.clock && w.clock + 1 < start + STATUS_CACHE_MS
    ensures GoesOnFenced(w, ws, es) && a in ws[|es|].answers && c in ws[|es|].clears
    ensures a.seen < c.version && c.at == w.clock && a.start == start + 2 * STATUS_CACHE_MS - 2
    ensures !NothingStale(ws[|es|])
  {
    var other := FreshBox(w.boxes.Keys);
    ws, es := MutationMeanwhile(w, box, other, start, seen);
    c := Clear(w.clock, w.version + 1);
    var ws2, es2, _ := PublishedAndCopied(ws[|es|], box, other, start, seen);
    Joined(ws, es, ws2, es2);
    ws, es := ws + ws2[1..], es + es2;
    var ws3, es3, served := ServedToTheEnd(ws[|es|], other, seen);
    Joined(ws, es, ws3, es3);
    ws, es, a := ws + ws3[1..], es + es3, served;
  }

  // ---- the two-period bound is tight ----------------------------------------------------------------------

  /** A generation read fails at once. */
  lemma UnfencedStart(t: nat) returns (ws: seq<World>, es: seq<Event>)
    requires t == STATUS_CACHE_MS
    ensures IsRun(ws, es) && ws[|es|].clock == t && ws[|es|].version == 0 && Unfenced(ws[|es|], 0, t, 0)
  {
    var idle := Box(None, Idle, 0);
    var w0 := World(t, 0, NO_STATUS, map[], [], []);
    var w1 := SetBox(w0, 0, idle);
    var w2 := SetBox(w1, 0, idle.(phase := AskedShared(t)));
    var w3 := SetBox(w2, 0, idle.(phase := Missed(t)));
    var w4 := SetBox(w3, 0, idle.(phase := Computing(t, None, 0)));
    ws := [w0, w1, w2, w3, w4];
    es := [Boot(0), StartStatus(0), ReadShared(0, false), ReadGen(0, true)];
  }

  /** One millisecond earlier the bound fails: an unfenced run serves version 0 that long after the clear of version 1. */
  lemma UnfencedBoundIsTight() returns (ws: seq<World>, es: seq<Event>, a: Answer, c: Clear)
    ensures IsRun(ws, es) && a in ws[|es|].answers && c in ws[|es|].clears
    ensures a.start == c.at + 2 * STATUS_CACHE_MS - 2 && a.seen < c.version
  {
    var ws1, es1 := UnfencedStart(STATUS_CACHE_MS);
    var ws2, es2, a', c' := EarlyFaultMisleads(ws1[|es1|], 0, STATUS_CACHE_MS, 0);
    Joined(ws1, es1, ws2, es2);
    ws, es, a, c := ws1 + ws2[1..], es1 + es2, a', c';
  }
}
