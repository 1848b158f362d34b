/**
 * The configuration broker's request handler, cut where it awaits the store or GitHub.
 *
 * A container is an object with its cached status and its own place in a request; the table is
 * shared. Each piece between two awaits is one step of the protocols in StatusCache and ConfigLock,
 * whatever other containers did in between, so what is proved of every run there is proved of this
 * code.
 */
module Broker {
  import opened Text
  import opened ConfigStore
  import opened StatusCache
  import ConfigLock

  class Container {
    const table: Table<nat>
    var statusCache: Option<Copy>
    var phase: Phase
    /** The configuration version at this container's latest successful clear. */
    ghost var own: nat

    constructor (table: Table<nat>)
      ensures this.table == table && statusCache == None && phase == Idle && own == 0
    {
      this.table, statusCache, phase, own := table, None, Idle, 0;
    }

    /** The world as the protocol sees it holds this container under `box`, and the table's row. */
    ghost predicate Shows(w: World, box: nat)
      reads this, table
    {
      box in w.boxes && w.boxes[box] == Box(statusCache, phase, own) && w.row == table.status
    }

    /** A status request begins: a live local copy answers it. */
    method BeginStatus(ghost w: World, box: nat, now: nat) returns (answer: Option<nat>, ghost w': World)
      requires Shows(w, box) && phase.Idle? && now == w.clock
      modifies this
      ensures Step(w, StartStatus(box), w') && Shows(w', box)
      ensures w'.answers == w.answers + if answer.Some? then [Answer(now, answer.value, own)] else []
    {
      answer := None;
      if statusCache.Some? && now < statusCache.value.at + STATUS_CACHE_MS {
        answer := Some(statusCache.value.seen);
        w' := Answered(w, w.boxes[box], now, answer.value);
      } else {
        phase := AskedShared(now);
        w' := SetBox(w, box, Box(statusCache, phase, own));
      }
    }

    /** The shared row answers it next, and is copied; a failed read counts as a miss. */
    method AskShared(ghost w: World, box: nat, fault: bool) returns (answer: Option<nat>, ghost w': World)
      requires Shows(w, box) && phase.AskedShared?
      modifies this
      ensures Step(w, ReadShared(box, fault), w') && Shows(w', box)
      ensures w'.answers == w.answers + if answer.Some? then [Answer(old(phase).start, answer.value, own)] else []
    {
      var now := phase.start;
      answer := None;
      if !fault {
        answer := table.GetStatusCache(STATUS_CACHE_MS, now);
      }
      if answer.Some? {
        statusCache, phase := Some(Copy(now, answer.value)), Idle;
        w' := Answered(SetBox(w, box, Box(statusCache, Idle, own)), w.boxes[box], now, answer.value);
      } else {
        phase := Missed(now);
        w' := SetBox(w, box, Box(statusCache, phase, own));
      }
    }

    /**
     * The generation is read before anything is computed; a failed read leaves the publish unfenced.
     * What the GitHub calls then report is no older than the present configuration `version`.
     */
    method AskGeneration(ghost w: World, box: nat, fault: bool, version: nat) returns (ghost w': World)
      requires Shows(w, box) && phase.Missed? && version == w.version
      modifies this
      ensures Step(w, ReadGen(box, fault), w') && Shows(w', box)
    {
      var gen: Option<nat> := None;
      if !fault {
        var g := table.GetStatusGeneration();
        gen := Some(g);
      }
      phase := Computing(phase.start, gen, version);
      w' := SetBox(w, box, Box(statusCache, phase, own));
    }

    /** The GitHub calls came back, or threw. */
    method Compute(ghost w: World, box: nat, threw: bool) returns (ghost w': World)
      requires Shows(w, box) && phase.Computing?
      modifies this
      ensures Step(w, if threw then ComputeFailed(box) else Computed(box), w') && Shows(w', box)
    {
      if threw {
        phase := Idle;
      } else {
        statusCache := Some(Copy(phase.start, phase.seen));
        phase := Publishing(phase.start, phase.gen, phase.seen);
      }
      w' := SetBox(w, box, Box(statusCache, phase, own));
    }

    /** The answer is published on the generation observed, and given whether or not it was. */
    method Publish(ghost w: World, box: nat, fault: bool) returns (answer: nat, ghost w': World)
      requires Shows(w, box) && phase.Publishing?
      modifies this, table`status
      ensures Step(w, Put(box, fault), w') && Shows(w', box)
      ensures w'.answers == w.answers + [Answer(old(phase).start, answer, own)]
    {
      var now, gen := phase.start, phase.gen;
      answer := phase.seen;
      if !fault {
        table.PutStatusCache(answer, now, gen);
      }
      phase := Idle;
      w' := Answered(SetBox(w, box, Box(statusCache, Idle, own)), w.boxes[box], now, answer).(row := table.status);
    }

    /** Both layers are cleared, before a mutation, after it, and before a redelivery. */
    method ClearBoth(ghost w: World, box: nat, fault: bool, event: Event) returns (ghost w': World)
      requires Shows(w, box)
      requires || (event == OpenMutation(box, fault) && phase.Idle?)
               || (event == CloseMutation(box, fault) && phase.Mutating?)
               || (event == Redeliver(box, fault) && phase.Idle?)
      modifies this, table`status
      ensures Step(w, event, w') && Shows(w', box)
    {
      w' := Invalidate(w, box, w.boxes[box], fault, if event.OpenMutation? then Mutating else Idle);
      statusCache := None;
      if !fault {
        table.ClearStatusCache();
        own := w.version;
      }
      phase := if event.OpenMutation? then Mutating else Idle;
    }
  }

  // ---- a mutation under the lock ----------------------------------------------------------------------

  /** The section runs only when the row was taken and the answer arrived. */
  method EnterSection(table: Table<nat>, ghost w: ConfigLock.World, holder: string, ttl: nat, now: nat, answered: bool)
    returns (runs: bool, ghost w': ConfigLock.World)
    requires w.row == table.lock && holder !in w.used && holder !in w.active && now <= w.clock
    modifies table`lock
    ensures ConfigLock.Step(ttl, w, ConfigLock.Acquire(holder, now, answered), w') && w'.row == table.lock
    ensures runs <==> holder in w'.active
  {
    var held := table.AcquireConfigLock(holder, ttl, now);
    runs := held && answered;
    w' := w.(used := w.used + {holder}, row := table.lock, active := if runs then w.active[holder := now] else w.active);
  }

  /** The section is over, thrown out of or not, and only then is the row released. */
  method LeaveSection(table: Table<nat>, ghost w: ConfigLock.World, holder: string, ttl: nat, fault: bool)
    returns (ghost mid: ConfigLock.World, ghost w': ConfigLock.World)
    requires w.row == table.lock && holder in w.used
    modifies table`lock
    ensures ConfigLock.Step(ttl, w, ConfigLock.EndSection(holder), mid) && w'.row == table.lock
    ensures if fault then w' == mid else ConfigLock.Step(ttl, mid, ConfigLock.Release(holder), w')
  {
    mid := w.(active := w.active - {holder});
    if !fault {
      table.ReleaseConfigLock(holder);
    }
    w' := mid.(row := table.lock);
  }
}
