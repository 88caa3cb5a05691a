/**
 The shared wake-lock reference count of the sensors HAL proxy and the move-only tokens that own single references.
 */
module WakeLock {
  import opened Common

  const TIMEOUT_NS: int := 1_000_000_000

  datatype Call = Acquire | Release

  /** `calls` are the successful acquisitions and the releases of the system wake lock. */
  datatype Lock = Lock(refs: int, start: int, reset: int, calls: seq<Call>)

  function Init(now: int): Lock { Lock(0, now, now, []) }

  predicate Held(l: Lock) { l.calls != [] && l.calls[|l.calls| - 1].Acquire? }

  /** incrementRefCountAndMaybeAcquireWakelock. */
  function Increment(l: Lock, run: bool, delta: nat, acquires: bool, now: int): (Lock, bool)
  {
    if !run || delta == 0 then (l, false)
    else if l.refs == 0 && !acquires then (l, false)
    else
      (l.(refs := l.refs + delta, start := now,
          calls := if l.refs == 0 then l.calls + [Acquire] else l.calls), true)
  }

  /** decrementRefCountAndMaybeReleaseWakelock; `stamp` is None for the default argument. */
  function Decrement(l: Lock, delta: nat, stamp: Option<int>): Lock
  {
    if l.refs == 0 || (stamp.Some? && stamp.value < l.reset) then l
    else
      var refs := l.refs - if delta < l.refs then delta else l.refs;
      l.(refs := refs, calls := if refs == 0 then l.calls + [Release] else l.calls)
  }

  /** resetSharedWakelock. */
  function Reset(l: Lock, now: int): Lock
    requires l.refs >= 0
  {
    Decrement(l, l.refs, None).(reset := now)
  }

  predicate TimedOut(l: Lock, now: int) { now - l.start > TIMEOUT_NS }

  /** The system lock is held exactly while references exist, and its calls strictly alternate. */
  ghost predicate Inv(l: Lock)
  {
    && l.refs >= 0
    && (Held(l) <==> l.refs > 0)
    && (forall i :: 0 <= i < |l.calls| ==> l.calls[i] == if i % 2 == 0 then Acquire else Release)
  }

  lemma IncrementInv(l: Lock, run: bool, delta: nat, acquires: bool, now: int)
    requires Inv(l)
    ensures Inv(Increment(l, run, delta, acquires, now).0)
  {
  }

  lemma DecrementInv(l: Lock, delta: nat, stamp: Option<int>)
    requires Inv(l)
    ensures Inv(Decrement(l, delta, stamp))
  {
  }

  // ---------------------------------------------------------------- the code, in place

  /** A token as a value. */
  datatype Scoped = Scoped(locked: bool, createdAt: int)

  /** The reference counter's fields, protected by mWakelockMutex. */
  class RefCounter {
    var run: bool
    var refs: nat
    var start: int
    var reset: int
    var calls: seq<Call>

    ghost function View(): Lock
      reads this
    {
      Lock(refs, start, reset, calls)
    }

    constructor (now: int)
      ensures View() == Init(now) && !run
    {
      run, refs, start, reset, calls := false, 0, now, now, [];
    }

    method IncrementRefCount(delta: nat, acquires: bool, now: int) returns (ok: bool, stamp: int)
      modifies this
      ensures (View(), ok) == Increment(old(View()), old(run), delta, acquires, now)
      ensures run == old(run) && (ok ==> stamp == now)
    {
      stamp := 0;
      if !run || delta == 0 { return false, stamp; }
      if refs == 0 {
        if !acquires { return false, stamp; }
        calls := calls + [Acquire];
      }
      start := now;
      refs := refs + delta;
      return true, now;
    }

    method DecrementRefCount(delta: nat, stamp: Option<int>)
      modifies this
      ensures View() == Decrement(old(View()), delta, stamp) && run == old(run)
    {
      var s := if stamp.None? then reset else stamp.value;
      if refs == 0 || s < reset { return; }
      refs := refs - if delta < refs then delta else refs;
      if refs == 0 { calls := calls + [Release]; }
    }

    /** sharedWakelockDidTimeout: more than a second since the last increment, else how much of it is left. */
    method DidTimeout(now: int) returns (timedOut: bool, timeLeft: int)
      ensures timedOut == TimedOut(View(), now)
      ensures timedOut <==> now > start + 1_000_000_000
      ensures !timedOut ==> timeLeft == start + 1_000_000_000 - now >= 0
    {
      var duration := now - start;
      if duration > TIMEOUT_NS { return true, 0; }
      return false, TIMEOUT_NS - duration;
    }

    method ResetSharedWakelock(now: int)
      modifies this
      ensures View() == Reset(old(View()), now) && run == old(run)
    {
      DecrementRefCount(refs, None);
      reset := now;
    }
  }

  /** Ownership of one reference. Destruct stands for the destructor. */
  class ScopedWakelock {
    var counter: RefCounter
    var createdAt: int
    var locked: bool

    ghost function View(): Scoped
      reads this
    {
      Scoped(locked, createdAt)
    }

    constructor (c: RefCounter, lock: bool, acquires: bool, now: int)
      modifies c
      ensures counter == c && c.run == old(c.run)
      ensures var r := if lock then Increment(old(c.View()), old(c.run), 1, acquires, now) else (old(c.View()), false);
              c.View() == r.0 && locked == r.1 && (locked ==> createdAt == now)
    {
      counter, locked, createdAt := c, lock, 0;
      new;
      if locked {
        var ok, stamp := counter.IncrementRefCount(1, acquires, now);
        locked, createdAt := ok, stamp;
      }
    }

    /** Move construction hands the reference over without touching the counter. */
    constructor Move(other: ScopedWakelock)
      modifies other`locked
      ensures counter == other.counter && View() == old(other.View()) && !other.locked
    {
      counter, createdAt, locked := other.counter, other.createdAt, other.locked;
      new;
      other.locked := false;
    }

    /** Move assignment releases what the target owned, then takes over; onto itself it does nothing. */
    method MoveAssign(other: ScopedWakelock)
      modifies this, other`locked, counter
      ensures this == other ==> View() == old(View()) && old(counter).View() == old(counter.View())
      ensures this != other ==>
                && counter == old(other.counter) && View() == old(other.View()) && !other.locked
                && old(counter).View() ==
                   if old(locked) then Decrement(old(counter.View()), 1, Some(old(createdAt))) else old(counter.View())
      ensures old(counter).run == old(counter.run)
    {
      if this != other {
        if locked { counter.DecrementRefCount(1, Some(createdAt)); }
        counter := other.counter;
        createdAt := other.createdAt;
        locked := other.locked;
        other.locked := false;
      }
    }

    method Destruct()
      modifies counter
      ensures counter.View() ==
              if locked then Decrement(old(counter.View()), 1, Some(createdAt)) else old(counter.View())
      ensures counter.run == old(counter.run)
    {
      if locked { counter.DecrementRefCount(1, Some(createdAt)); }
    }
  }
}
