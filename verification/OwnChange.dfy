/**
 * A container reads its own configuration change back at once, and exactly which failed generation
 * reads can keep it from doing so.
 */
module OwnChange {
  import opened Text
  import opened ConfigStore
  import opened StatusCache

  /**
   * A generation read may fail once its request has run for a full cache period: what it goes on to
   * publish is dead on arrival.
   */
  predicate DeadOnArrival(w: World, e: Event) {
    Faults(e) && e.box in w.boxes && w.boxes[e.box].phase.Missed? ==>
      w.boxes[e.box].phase.start + STATUS_CACHE_MS <= w.clock
  }

  ghost predicate AllDead(ws: seq<World>, es: seq<Event>, n: nat) {
    forall i :: 0 <= i < n && i < |es| && i < |ws| ==> DeadOnArrival(ws[i], es[i])
  }

  /** Every answer reflects the container's own latest successful clear. */
  ghost predicate OwnVisible(w: World) {
    forall a :: a in w.answers ==> a.own <= a.seen
  }

  // ---- the invariant ----------------------------------------------------------------------------------

  /** The container knows nothing newer than `seen`, or its request started after a row of time `at` died. */
  predicate Unharmed(b: Box, at: nat, seen: nat) {
    b.own <= seen || (b.phase.AskedShared? ==> at + STATUS_CACHE_MS <= b.phase.start)
  }

  ghost predicate Passed(w: World, at: nat, seen: nat) {
    at + STATUS_CACHE_MS <= w.clock && forall c :: c in w.boxes ==> Unharmed(w.boxes[c], at, seen)
  }

  ghost predicate RowOwn(w: World) {
    w.row.at.Some? && w.row.at.value != 0 && w.row.payload.Some? && !Current(w.clears, w.row.payload.value) ==>
      Passed(w, w.row.at.value, w.row.payload.value)
  }

  /** An answer in the making without a fence. */
  predicate UnfencedMaking(b: Box) {
    (b.phase.Computing? || b.phase.Publishing?) && b.phase.gen.None?
  }

  ghost predicate BoxOwn(w: World, b: Box) {
    && (b.local.Some? ==> b.own <= b.local.value.seen)
    && (UnfencedMaking(b) ==> Passed(w, b.phase.start, b.phase.seen))
  }

  ghost predicate OwnInv(w: World) {
    && Inv(w, AllHarmless) && RowOwn(w) && OwnVisible(w)
    && forall c :: c in w.boxes ==> BoxOwn(w, w.boxes[c])
  }

  // ---- preservation -----------------------------------------------------------------------------------

  lemma DeadIsHarmless(w: World, e: Event)
    requires DeadOnArrival(w, e)
    ensures Harmless(w, e)
  {
  }

  /** What a container does next harms nothing that has passed, unless it is an old request asking. */
  lemma PassedKeeps(w: World, box: nat, b: Box, at: nat, seen: nat)
    requires Passed(w, at, seen) && (b.phase.AskedShared? ==> b.phase.start == w.clock)
    ensures Passed(SetBox(w, box, b), at, seen)
  {
  }

  /** One container moves on; the table stays. */
  lemma BoxMoves(w: World, box: nat, b: Box)
    requires OwnInv(w) && Inv(SetBox(w, box, b), AllHarmless)
    requires (b.phase.AskedShared? ==> b.phase.start == w.clock) && (b.local.Some? ==> b.own <= b.local.value.seen)
    requires UnfencedMaking(b) ==> Passed(w, b.phase.start, b.phase.seen)
    ensures OwnInv(SetBox(w, box, b))
  {
    var w' := SetBox(w, box, b);
    forall c | c in w'.boxes ensures BoxOwn(w', w'.boxes[c]) {
      assert c != box ==> BoxOwn(w, w.boxes[c]);
      if UnfencedMaking(w'.boxes[c]) {
        PassedKeeps(w, box, b, w'.boxes[c].phase.start, w'.boxes[c].phase.seen);
      }
    }
    if !RowOwn(w') {
      PassedKeeps(w, box, b, w.row.at.value, w.row.payload.value);
    }
  }

  /** The clock or the configuration moves on, or a container is gone. */
  lemma WorldMoves(w: World, w': World)
    requires OwnInv(w) && Inv(w', AllHarmless) && w.clock <= w'.clock
    requires w'.row == w.row && w'.clears == w.clears && w'.answers == w.answers
    requires forall c :: c in w'.boxes ==> c in w.boxes && w'.boxes[c] == w.boxes[c]
    ensures OwnInv(w')
  {
    forall c | c in w'.boxes ensures BoxOwn(w', w'.boxes[c]) {
      assert BoxOwn(w, w.boxes[c]);
    }
  }

  lemma AnswerAdds(w: World, b: Box, start: nat, seen: nat)
    requires OwnInv(w) && Inv(Answered(w, b, start, seen), AllHarmless) && b.own <= seen
    ensures OwnInv(Answered(w, b, start, seen))
  {
    var w' := Answered(w, b, start, seen);
    forall c | c in w'.boxes ensures BoxOwn(w', w'.boxes[c]) {
      assert BoxOwn(w, w.boxes[c]);
    }
  }

  /** A live shared row holds nothing older than the container's own change. */
  lemma SharedIsOwn(w: World, box: nat, seen: nat)
    requires OwnInv(w) && box in w.boxes && w.boxes[box].phase.AskedShared?
    requires Live(w.row, STATUS_CACHE_MS, w.boxes[box].phase.start) == Some(seen)
    ensures w.boxes[box].own <= seen
  {
    var b := w.boxes[box];
    assert BoxInv(w, b, AllHarmless);
    if b.own != 0 && Current(w.clears, seen) {
      var i :| 0 <= i < |w.clears| && w.clears[i].version == b.own;
    }
  }

  lemma StatusBegins(w: World, box: nat, w': World)
    requires OwnInv(w) && Step(w, StartStatus(box), w') && Inv(w', AllHarmless)
    ensures OwnInv(w')
  {
    var b := w.boxes[box];
    assert BoxOwn(w, b);
    if LocalLive(b.local, w.clock) {
      AnswerAdds(w, b, w.clock, b.local.value.seen);
    } else {
      BoxMoves(w, box, b.(phase := AskedShared(w.clock)));
    }
  }

  lemma SharedAnswers(w: World, box: nat, fault: bool, w': World)
    requires OwnInv(w) && Step(w, ReadShared(box, fault), w') && Inv(w', AllHarmless)
    ensures OwnInv(w')
  {
    var b := w.boxes[box];
    assert BoxOwn(w, b) && BoxInv(w, b, AllHarmless);
    var shared := if fault then None else Live(w.row, STATUS_CACHE_MS, b.phase.start);
    if shared.Some? {
      SharedIsOwn(w, box, shared.value);
      SharedHitIsFresh(w, b, b.phase.start, shared.value, AllHarmless);
      var b' := Box(Some(Copy(b.phase.start, shared.value)), Idle, b.own);
      OneBoxKeeps(w, box, b', AllHarmless);
      BoxMoves(w, box, b');
      AnswerAdds(SetBox(w, box, b'), b, b.phase.start, shared.value);
    } else {
      BoxMoves(w, box, b.(phase := Missed(b.phase.start)));
    }
  }

  lemma GenerationAnswers(w: World, box: nat, fault: bool, w': World)
    requires OwnInv(w) && Step(w, ReadGen(box, fault), w') && Inv(w', AllHarmless) && DeadOnArrival(w, ReadGen(box, fault))
    ensures OwnInv(w')
  {
    var b := w.boxes[box];
    assert BoxOwn(w, b);
    forall c | c in w.boxes ensures w.boxes[c].own <= w.version {
      assert BoxInv(w, w.boxes[c], AllHarmless);
    }
    BoxMoves(w, box, w'.boxes[box]);
  }

  lemma Publishes(w: World, box: nat, fault: bool, w': World)
    requires OwnInv(w) && Step(w, Put(box, fault), w') && Inv(w', AllHarmless)
    ensures OwnInv(w')
  {
    var b := w.boxes[box];
    var idle := b.(phase := Idle);
    assert BoxOwn(w, b) && BoxInv(w, b, AllHarmless);
    OneBoxKeeps(w, box, idle, AllHarmless);
    BoxMoves(w, box, idle);
    var u := SetBox(w, box, idle);
    if UnfencedMaking(b) {
      PassedKeeps(w, box, idle, b.phase.start, b.phase.seen);
    }
    if !fault {
      PublishKeeps(u, b.own, b.phase.start, b.phase.gen, b.phase.seen, AllHarmless);
    }
    RowMoves(u, w'.row);
    AnswerAdds(u.(row := w'.row), b, b.phase.start, b.phase.seen);
  }

  lemma RowMoves(w: World, row: StatusRow<nat>)
    requires OwnInv(w) && Inv(w.(row := row), AllHarmless) && RowOwn(w.(row := row))
    ensures OwnInv(w.(row := row))
  {
    var w' := w.(row := row);
    forall c | c in w'.boxes ensures BoxOwn(w', w'.boxes[c]) {
      assert BoxOwn(w, w.boxes[c]);
    }
  }

  lemma Clears(w: World, box: nat, fault: bool, phase: Phase, w': World)
    requires OwnInv(w) && box in w.boxes && phase in {Idle, Mutating}
    requires w' == Invalidate(w, box, w.boxes[box], fault, phase) && Inv(w', AllHarmless)
    ensures OwnInv(w')
  {
    if fault {
      BoxMoves(w, box, w.boxes[box].(local := None, phase := phase));
    } else {
      forall c | c in w'.boxes ensures BoxOwn(w', w'.boxes[c]) {
        if c != box {
          assert BoxOwn(w, w.boxes[c]);
          if UnfencedMaking(w.boxes[c]) {
            PassedKeeps(w, box, w'.boxes[box], w.boxes[c].phase.start, w.boxes[c].phase.seen);
          }
        }
      }
    }
  }

  lemma OwnStepKeeps(w: World, e: Event, w': World)
    requires OwnInv(w) && Step(w, e, w') && DeadOnArrival(w, e)
    ensures OwnInv(w')
  {
    DeadIsHarmless(w, e);
    StepKeeps(w, e, w', AllHarmless);
    if e.Tick? || e.Crash? {
      WorldMoves(w, w');
    } else if e.Boot? {
      BoxMoves(w, e.box, Box(None, Idle, 0));
    } else {
      var b := w.boxes[e.box];
      assert BoxOwn(w, b) && BoxInv(w, b, AllHarmless);
      match e {
        case StartStatus(box) => StatusBegins(w, box, w');
        case ReadShared(box, fault) => SharedAnswers(w, box, fault, w');
        case ReadGen(box, fault) => GenerationAnswers(w, box, fault, w');
        case Computed(box) => BoxMoves(w, box, w'.boxes[box]);
        case ComputeFailed(box) => BoxMoves(w, box, w'.boxes[box]);
        case Put(box, fault) => Publishes(w, box, fault, w');
        case OpenMutation(box, fault) => Clears(w, box, fault, Mutating, w');
        case Write(_) => WorldMoves(w, w');
        case CloseMutation(box, fault) => Clears(w, box, fault, Idle, w');
        case Redeliver(box, fault) => Clears(w, box, fault, Idle, w');
      }
    }
  }

  lemma {:induction false} OwnPathInv(ws: seq<World>, es: seq<Event>, n: nat)
    requires Steps(ws, es) && OwnInv(ws[0]) && n < |ws| && AllDead(ws, es, n)
    ensures OwnInv(ws[n])
  {
    if n > 0 {
      OwnPathInv(ws, es, n - 1);
      OwnStepKeeps(ws[n - 1], es[n - 1], ws[n]);
    }
  }

  // ---- what a container is promised ---------------------------------------------------------------------

  /**
   * In every run whose failed generation reads come a full cache period into their requests, every
   * answer a container gives reflects its own latest change.
   */
  lemma OwnChangeIsVisible(ws: seq<World>, es: seq<Event>, n: nat, a: Answer)
    requires IsRun(ws, es) && n < |ws| && AllDead(ws, es, n) && a in ws[n].answers
    ensures a.own <= a.seen
  {
    OwnPathInv(ws, es, n);
  }

  /** However the run goes on, as long as no further generation read fails. */
  ghost predicate StaysVisible(w: World) {
    forall ws, es :: GoesOnFenced(w, ws, es) ==> OwnVisible(ws[|es|])
  }

  /**
   * The condition is exact: one more step leaves every container able to read its own changes back,
   * however the run goes on, if and only if it is no generation read that fails earlier.
   */
  lemma OwnFaultIsSafeIff(ws: seq<World>, es: seq<Event>, e: Event, w': World)
    requires IsRun(ws, es) && AllDead(ws, es, |es|) && Step(ws[|es|], e, w')
    ensures StaysVisible(w') <==> DeadOnArrival(ws[|es|], e)
  {
    var w := ws[|es|];
    OwnPathInv(ws, es, |es|);
    if DeadOnArrival(w, e) {
      OwnStepKeeps(w, e, w');
      forall ws', es' | GoesOnFenced(w', ws', es') ensures OwnVisible(ws'[|es'|]) {
        OwnPathInv(ws', es', |es'|);
      }
    } else {
      assert BoxInv(w, w.boxes[e.box], AllHarmless);
      var ws', es' := OwnFaultMisleads(w', e.box, w.boxes[e.box].phase.start, w.version);
      assert !OwnVisible(ws'[|es'|]);
    }
  }

  /** Another container changes the configuration, and is answered from the row published over its clear. */
  lemma OwnFaultMisleads(w: World, box: nat, start: nat, seen: nat) returns (ws: seq<World>, es: seq<Event>)
    requires Unfenced(w, box, start, seen) && seen == w.version && 0 < start <= w.clock < start + STATUS_CACHE_MS
    ensures GoesOnFenced(w, ws, es) && !OwnVisible(ws[|es|])
  {
    var other := FreshBox(w.boxes.Keys);
    ws, es := MutationMeanwhile(w, box, other, start, seen);
    var ws2, es2, a := PublishedAndCopied(ws[|es|], box, other, start, seen);
    Joined(ws, es, ws2, es2);
    ws, es := ws + ws2[1..], es + es2;
    assert a in ws[|es|].answers && a.own > a.seen;
  }
}
