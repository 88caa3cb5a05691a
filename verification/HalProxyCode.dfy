/**
 The proxy's queue code as it mutates its fields. Each method is a region of HalProxy.cpp that one of the two mutexes
 protects, proved against the functions of the corresponding step of the HalProxy machine.
 */
module HalProxyCode {
  import opened Common
  import P = PendingEvents
  import W = WakeLock
  import H = HalProxy

  /** countNumWakeupEvents. */
  method CountNumWakeupEvents(events: seq<P.Event>, n: nat) returns (count: nat)
    requires n <= |events|
    ensures count == P.CountWake(events[..n])
  {
    count := 0;
    for i := 0 to n
      invariant count == P.CountWake(events[..i])
    {
      assert events[..i + 1] == events[..i] + [events[i]];
      P.CountWakeAppend(events[..i], [events[i]]);
      assert [events[i]][1..] == [];
      if events[i].wake { count := count + 1; }
    }
  }

  class Proxy {
    const locks: W.RefCounter
    var queue: seq<P.Entry>
    var size: nat
    var mostPending: nat
    var fmq: seq<P.Event>
    /** The worker's locals, which live across its unlocked write. */
    var phase: P.Phase

    ghost function View(): P.Queue
      reads this, locks
    {
      P.Queue(locks.run, queue, size, phase)
    }

    ghost predicate Valid()
      reads this, locks
    {
      P.QueueInv(View())
    }

    constructor (now: int)
      ensures Valid() && fresh(locks) && View() == P.Init().q && locks.View() == W.Init(now) && fmq == []
    {
      locks := new W.RefCounter(now);
      queue, size, mostPending, fmq, phase := [], 0, 0, [], P.Parked;
    }

    /** What a post does to queue and lock when nothing comes in between: charge, settle, drop. */
    static ghost function Undisturbed(q: P.Queue, l: W.Lock, locked: bool, events: seq<P.Event>, wakes: nat,
                                      available: nat, writes: bool, canAcquire: bool, now: int): (P.Queue, W.Lock, nat)
    {
      var (charged, admitted) := H.Gate(q.run, l, locked, wakes, canAcquire, now);
      if !admitted then (q, charged, 0)
      else
        var n := P.DirectWrite(q, events, available, writes);
        (P.Offer(q, events, wakes, n), H.AfterDrop(charged, H.AfterSettle(q, events, n)), n)
    }

    /** HalProxyCallback::postEvents: the machine's three steps of a post in sequence. */
    method PostEvents(token: W.Scoped, events: seq<P.Event>, available: nat, writes: bool, canAcquire: bool, now: int)
      requires Valid()
      modifies this, locks
      ensures Valid() && locks.run == old(locks.run)
      ensures var (charged, admitted) := H.Admit(old(locks.run), old(locks.View()), token, events, canAcquire, now);
              if !admitted then View() == old(View()) && locks.View() == charged && fmq == old(fmq)
              else
                var n := P.DirectWrite(old(View()), events, available, writes);
                && fmq == old(fmq) + events[..n]
                && View() == P.Offer(old(View()), events, P.CountWake(events), n)
                && locks.View() == H.AfterDrop(charged, H.AfterSettle(old(View()), events, n))
    {
      if events == [] || !locks.run { return; }
      assert events[..|events|] == events;
      var wakes := CountNumWakeupEvents(events, |events|);
      if wakes > 0 && !token.locked { return; }
      PostEventsToMessageQueue(events, wakes, token.locked, available, writes, canAcquire, now);
    }

    /** postEventsToMessageQueue; `wakes` was counted over the same events by processEvents. */
    method PostEventsToMessageQueue(events: seq<P.Event>, wakes: nat, locked: bool,
                                    available: nat, writes: bool, canAcquire: bool, now: int)
      requires Valid() && wakes == P.CountWake(events)
      modifies this, locks
      ensures Valid() && locks.run == old(locks.run)
      ensures var (q, l, n) := Undisturbed(old(View()), old(locks.View()), locked, events, wakes,
                                           available, writes, canAcquire, now);
              View() == q && locks.View() == l && n <= |events| && fmq == old(fmq) + events[..n]
    {
      var charged := Charge(wakes, locked, canAcquire, now);
      if !charged { return; }
      var posting := SettlePost(events, wakes, available, writes);
      DropExcess(posting);
    }

    /** The gate at the start of postEventsToMessageQueue. */
    method Charge(wakes: nat, locked: bool, canAcquire: bool, now: int) returns (charged: bool)
      modifies locks
      ensures locks.run == old(locks.run)
      ensures (locks.View(), charged) == H.Gate(old(locks.run), old(locks.View()), locked, wakes, canAcquire, now)
    {
      if !locks.run { return false; }
      if locked {
        var ok, _ := locks.IncrementRefCount(wakes, canAcquire, now);
        return ok;
      }
      return true;
    }

    /** Write what fits, queue the rest, or find that it has to be dropped. */
    method SettlePost(events: seq<P.Event>, wakes: nat, available: nat, writes: bool) returns (posting: H.Posting)
      requires Valid() && wakes == P.CountWake(events)
      modifies this`queue, this`size, this`mostPending, this`fmq
      ensures Valid()
      ensures var n := P.DirectWrite(old(View()), events, available, writes);
              && fmq == old(fmq) + events[..n]
              && View() == P.Offer(old(View()), events, wakes, n)
              && posting == H.AfterSettle(old(View()), events, n)
    {
      var n := WriteDirectly(events, available, writes);
      posting := QueueRemainder(events, wakes, n);
    }

    /** Give the references of dropped wake events back. */
    method DropExcess(posting: H.Posting)
      modifies locks
      ensures locks.run == old(locks.run) && locks.View() == H.AfterDrop(old(locks.View()), posting)
    {
      if posting.Excess? { locks.DecrementRefCount(posting.wakes, None); }
    }

    /** Write what fits, but only past an empty queue. */
    method WriteDirectly(events: seq<P.Event>, available: nat, writes: bool) returns (n: nat)
      modifies this`fmq
      ensures n == P.DirectWrite(View(), events, available, writes) && fmq == old(fmq) + events[..n]
    {
      n := 0;
      if queue == [] {
        n := P.Min(|events|, available);
        if n > 0 && !writes { n := 0; }
      }
      fmq := fmq + events[..n];
    }

    /** Queue the rest, or leave it to be dropped when the queue is full. */
    method QueueRemainder(events: seq<P.Event>, wakes: nat, n: nat) returns (posting: H.Posting)
      requires Valid() && n <= |events| && wakes == P.CountWake(events)
      modifies this`queue, this`size, this`mostPending
      ensures Valid() && View() == P.Offer(old(View()), events, wakes, n)
      ensures posting == H.AfterSettle(old(View()), events, n)
    {
      var left := |events| - n;
      var written := CountNumWakeupEvents(events, n);
      P.CountWakeSplit(events, n);
      var wakesLeft := wakes - written;
      P.PostQueueInv(View(), events, n);
      posting := H.NoPost;
      if left == 0 { return; }
      if size + left <= P.MAX_PENDING {
        queue := queue + [P.Entry(events[n..], wakesLeft)];
        size := size + left;
        if mostPending < size { mostPending := size; }
      } else {
        posting := H.Excess(wakesLeft);
      }
    }

    /** handlePendingWrites from waking up to the unlock. */
    method TakeChunk(quantum: nat)
      requires Valid() && queue != [] && phase.Parked? && quantum > 0
      modifies this`phase
      ensures Valid() && View() == P.Take(old(View()), quantum)
    {
      var front := queue[0].events;
      assert P.EntryInv(queue[0]);
      var n := P.Min(|front|, quantum);
      var wakes := CountNumWakeupEvents(front, n);
      phase := P.Writing(n, quantum, wakes);
    }

    /** The unlocked write returns; a failed one gives the chunk's references back. */
    method WriteReturns(ok: bool)
      requires Valid() && phase.Writing?
      modifies this`phase, this`fmq, locks
      ensures Valid() && locks.run == old(locks.run)
      ensures phase == P.Wrote(old(phase).n, old(phase).quantum, old(phase).wakes)
      ensures fmq == old(fmq) + (if ok then queue[0].events[..old(phase).n] else [])
      ensures locks.View() == if ok then old(locks.View()) else W.Decrement(old(locks.View()), old(phase).wakes, None)
    {
      if ok { fmq := fmq + queue[0].events[..phase.n]; } else { locks.DecrementRefCount(phase.wakes, None); }
      phase := P.Wrote(phase.n, phase.quantum, phase.wakes);
    }

    /** handlePendingWrites after it has the lock back. */
    method RemoveChunk()
      requires Valid() && phase.Wrote?
      modifies this`size, this`queue, this`phase
      ensures Valid() && View() == P.Remove(old(View()))
    {
      P.RemoveQueueInv(View());
      size := size - phase.n;
      var front := queue[0];
      front := front.(wakes := front.wakes - phase.wakes);
      if |front.events| > phase.quantum {
        queue := [front.(events := front.events[phase.quantum..])] + queue[1..];
      } else {
        queue := queue[1..];
      }
      phase := P.Parked;
    }

    /** initialize replaces the session's queues once the workers are joined. */
    method Restart(ok: bool, now: int)
      requires Valid() && phase.Parked? && !locks.run
      modifies this, locks
      ensures Valid() && View() == P.Queue(ok, [], 0, P.Parked) && fmq == []
      ensures locks.View() == W.Reset(old(locks.View()), now)
    {
      locks.ResetSharedWakelock(now);
      queue, size, fmq := [], 0, [];
      locks.run := ok;
    }
  }
}
