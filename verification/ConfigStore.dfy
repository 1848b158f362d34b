/** The shared configuration table: the mutation lock row and the status-cache row. */
module ConfigStore {
  import opened Text

  // ---- the lock row -----------------------------------------------------------------------------------

  datatype LockRow = LockRow(holder: Option<string>, expiresAt: Option<nat>)

  /** No lock row, or an expired one. */
  predicate CanAcquire(row: LockRow, now: nat) {
    row.expiresAt.None? || row.expiresAt.value < now
  }

  function Held(holder: string, ttl: nat, now: nat): LockRow {
    LockRow(Some(holder), Some(now + ttl))
  }

  function Released(row: LockRow, holder: string): LockRow {
    if row.holder == Some(holder) then row.(expiresAt := Some(0)) else row
  }

  // ---- the status row ---------------------------------------------------------------------------------

  datatype StatusRow<T> = StatusRow(at: Option<nat>, payload: Option<T>, gen: Option<nat>)

  const NO_STATUS: StatusRow<nat> := StatusRow(None, None, None)

  function Live<T>(row: StatusRow<T>, maxAge: nat, now: nat): Option<T> {
    if row.at.None? || row.payload.None? then None
    else if now >= row.at.value + maxAge then None
    else row.payload
  }

  function Generation<T>(row: StatusRow<T>): nat {
    if row.gen.Some? then row.gen.value else 0
  }

  /** Publish an answer, fenced on the generation the caller observed; an unobserved one is not fenced. */
  function Published<T>(row: StatusRow<T>, payload: T, now: nat, expected: Option<nat>): StatusRow<T> {
    if expected.Some? && Generation(row) != expected.value then row
    else StatusRow(Some(now), Some(payload), row.gen)
  }

  function Invalidated<T>(row: StatusRow<T>): StatusRow<T> {
    row.(at := Some(0), gen := Some(Generation(row) + 1))
  }

  /** The table as its clients call it: one atomic conditional write or read per method. */
  class Table<T(==)> {
    var lock: LockRow
    var status: StatusRow<T>

    constructor ()
      ensures lock == LockRow(None, None) && status == StatusRow(None, None, None)
    {
      lock, status := LockRow(None, None), StatusRow(None, None, None);
    }

    method AcquireConfigLock(holder: string, ttl: nat, now: nat) returns (held: bool)
      modifies this`lock
      ensures held <==> CanAcquire(old(lock), now)
      ensures lock == if held then Held(holder, ttl, now) else old(lock)
    {
      held := !lock.expiresAt.Some? || lock.expiresAt.value < now;
      if held {
        lock := lock.(holder := Some(holder), expiresAt := Some(now + ttl));
      }
    }

    method ReleaseConfigLock(holder: string)
      modifies this`lock
      ensures lock == Released(old(lock), holder)
    {
      if lock.holder == Some(holder) {
        lock := lock.(expiresAt := Some(0));
      }
    }

    method GetStatusCache(maxAge: nat, now: nat) returns (payload: Option<T>)
      ensures payload == Live(status, maxAge, now)
    {
      if status.at.None? || status.payload.None? {
        return None;
      }
      if now >= status.at.value + maxAge {
        return None;
      }
      return status.payload;
    }

    method GetStatusGeneration() returns (gen: nat)
      ensures gen == Generation(status)
    {
      gen := if status.gen.Some? then status.gen.value else 0;
    }

    /** The write condition is on the attribute itself: an absent generation matches only an expected 0. */
    method PutStatusCache(payload: T, now: nat, expected: Option<nat>)
      modifies this`status
      ensures status == Published(old(status), payload, now, expected)
    {
      var matches := expected.None? || status.gen == expected || (expected == Some(0) && status.gen.None?);
      if matches {
        status := status.(at := Some(now), payload := Some(payload));
      }
    }

    method ClearStatusCache()
      modifies this`status
      ensures status == Invalidated(old(status))
    {
      var gen := if status.gen.Some? then status.gen.value + 1 else 1;
      status := status.(at := Some(0), gen := Some(gen));
    }
  }
}
