/**
 The bounded queue between sub-HAL event posts and the event FMQ. A post writes what fits while holding the
 mutex and queues the rest; a worker drains the queue in chunks and writes them without the mutex. Locked
 regions and the unlocked write are separate steps; FMQ writes are all or nothing with arbitrary outcome.
 */
module PendingEvents {
  const MAX_PENDING: nat := 100_000

  datatype Event = Event(payload: int, wake: bool)

  /** A queue element: remaining events and the number of wake events the code believes are among them. */
  datatype Entry = Entry(events: seq<Event>, wakes: int)

  /** Parked: outside a chunk. Writing: inside the unlocked write. Wrote: the write returned, the chunk is still
      queued. */
  datatype Phase = Parked | Writing(n: nat, quantum: nat, wakes: nat) | Wrote(n: nat, quantum: nat, wakes: nat)

  datatype Queue = Queue(run: bool, entries: seq<Entry>, size: int, phase: Phase)

  function CountWake(es: seq<Event>): nat
  {
    if es == [] then 0 else (if es[0].wake then 1 else 0) + CountWake(es[1..])
  }

  lemma {:induction false} CountWakeAppend(a: seq<Event>, b: seq<Event>)
    ensures CountWake(a + b) == CountWake(a) + CountWake(b)
    decreases |a|
  {
    if a == [] { assert a + b == b; } else {
      assert (a + b)[1..] == a[1..] + b;
      CountWakeAppend(a[1..], b);
    }
  }

  lemma CountWakeSplit(es: seq<Event>, n: nat)
    requires n <= |es|
    ensures CountWake(es) == CountWake(es[..n]) + CountWake(es[n..])
  {
    assert es == es[..n] + es[n..];
    CountWakeAppend(es[..n], es[n..]);
  }

  function Flat(entries: seq<Entry>): seq<Event>
  {
    if entries == [] then [] else entries[0].events + Flat(entries[1..])
  }

  lemma {:induction false} FlatAppend(entries: seq<Entry>, e: Entry)
    ensures Flat(entries + [e]) == Flat(entries) + e.events
    decreases |entries|
  {
    if entries == [] { assert entries + [e] == [e] && [e][1..] == []; } else {
      assert (entries + [e])[1..] == entries[1..] + [e];
      FlatAppend(entries[1..], e);
    }
  }

  function Min(a: nat, b: nat): nat { if a < b then a else b }

  // ---------------------------------------------------------------- operations

  /** How many of `events` a post writes itself. */
  function DirectWrite(q: Queue, events: seq<Event>, available: nat, writes: bool): nat
  {
    if q.entries == [] && writes then Min(|events|, available) else 0
  }

  predicate Overflows(q: Queue, left: nat) { q.size + left > MAX_PENDING }

  /** The queue part of postEventsToMessageQueue, after the wake-lock check; `wakes` is the caller's count. */
  function Offer(q: Queue, events: seq<Event>, wakes: int, n: nat): Queue
    requires n <= |events|
  {
    var left := |events| - n;
    var wakesLeft := wakes - CountWake(events[..n]);
    if left == 0 || Overflows(q, left) then q
    else q.(entries := q.entries + [Entry(events[n..], wakesLeft)], size := q.size + left)
  }

  /** handlePendingWrites up to the unlock; `quantum` is the FMQ capacity. */
  function Take(q: Queue, quantum: nat): Queue
    requires q.entries != []
  {
    var n := Min(|q.entries[0].events|, quantum);
    q.(phase := Writing(n, quantum, CountWake(q.entries[0].events[..n])))
  }

  /** handlePendingWrites after it has taken the lock again. */
  function Remove(q: Queue): Queue
    requires q.phase.Wrote? && q.entries != []
  {
    var front := q.entries[0];
    var rest := front.(wakes := front.wakes - q.phase.wakes);
    q.(size := q.size - q.phase.n,
       entries := if |front.events| > q.phase.quantum
                  then [rest.(events := front.events[q.phase.quantum..])] + q.entries[1..]
                  else q.entries[1..],
       phase := Parked)
  }

  // ---------------------------------------------------------------- history

  datatype Fate = Written | Pending | Dropped

  /** Everything posted in this framework session with what became of it, and what reached the FMQ. */
  datatype History = History(posted: seq<Event>, fate: seq<Fate>, written: seq<Event>)

  function Same(n: nat, f: Fate): (r: seq<Fate>)
    ensures |r| == n && forall i :: 0 <= i < n ==> r[i] == f
  {
    seq(n, _ => f)
  }

  function Select(posted: seq<Event>, fate: seq<Fate>, f: Fate): seq<Event>
    requires |posted| == |fate|
  {
    if posted == [] then []
    else (if fate[0] == f then [posted[0]] else []) + Select(posted[1..], fate[1..], f)
  }

  /** The first `n` pending events turn into `f`. */
  function Mark(fate: seq<Fate>, n: nat, f: Fate): (r: seq<Fate>)
    ensures |r| == |fate|
  {
    if fate == [] || n == 0 then fate
    else if fate[0] == Pending then [f] + Mark(fate[1..], n - 1, f)
    else [fate[0]] + Mark(fate[1..], n, f)
  }

  /** Nothing is written after something still pending. */
  ghost predicate Ordered(fate: seq<Fate>)
  {
    forall i, j :: 0 <= i < j < |fate| && fate[i] == Pending ==> fate[j] != Written
  }

  lemma {:induction false} SelectAppend(p1: seq<Event>, f1: seq<Fate>, p2: seq<Event>, f2: seq<Fate>, f: Fate)
    requires |p1| == |f1| && |p2| == |f2|
    ensures Select(p1 + p2, f1 + f2, f) == Select(p1, f1, f) + Select(p2, f2, f)
    decreases |p1|
  {
    if p1 == [] {
      assert p1 + p2 == p2 && f1 + f2 == f2;
    } else {
      assert (p1 + p2)[1..] == p1[1..] + p2 && (f1 + f2)[1..] == f1[1..] + f2;
      SelectAppend(p1[1..], f1[1..], p2, f2, f);
    }
  }

  lemma {:induction false} SelectSame(p: seq<Event>, g: Fate, f: Fate)
    ensures Select(p, Same(|p|, g), f) == if f == g then p else []
    decreases |p|
  {
    if p != [] {
      assert Same(|p|, g)[1..] == Same(|p| - 1, g);
      SelectSame(p[1..], g, f);
    }
  }

  lemma {:induction false} SelectNone(p: seq<Event>, fate: seq<Fate>, f: Fate)
    requires |p| == |fate| && forall i :: 0 <= i < |fate| ==> fate[i] != f
    ensures Select(p, fate, f) == []
    decreases |p|
  {
    if p != [] { SelectNone(p[1..], fate[1..], f); }
  }

  lemma {:induction false} MarkKeepsOthers(fate: seq<Fate>, n: nat, f: Fate)
    requires f != Pending && Ordered(fate)
    ensures forall i :: 0 <= i < |fate| && fate[i] != Pending ==> Mark(fate, n, f)[i] == fate[i]
    ensures forall i :: 0 <= i < |fate| && fate[i] == Pending ==> Mark(fate, n, f)[i] in {Pending, f}
    ensures Ordered(Mark(fate, n, f))
    decreases |fate|
  {
    if fate != [] && n > 0 {
      assert Ordered(fate[1..]);
      MarkKeepsOthers(fate[1..], if fate[0] == Pending then n - 1 else n, f);
    }
  }

  /** Mark and Select, one event at a time. */
  lemma MarkStep(fate: seq<Fate>, n: nat, f: Fate)
    requires fate != [] && n > 0
    ensures var m := Mark(fate, n, f);
            && m[0] == (if fate[0] == Pending then f else fate[0])
            && m[1..] == Mark(fate[1..], if fate[0] == Pending then n - 1 else n, f)
  {
  }

  lemma DropPrepended(x: Event, later: seq<Event>, n: nat)
    requires 0 < n <= |later| + 1
    ensures ([x] + later)[n..] == later[n - 1..] && ([x] + later)[..n] == [x] + later[..n - 1]
  {
  }

  /** Marking a prefix of the pending events takes exactly that prefix away. */
  lemma {:induction false} MarkTakes(p: seq<Event>, fate: seq<Fate>, n: nat, f: Fate)
    requires |p| == |fate| && f != Pending && n <= |Select(p, fate, Pending)|
    ensures Select(p, Mark(fate, n, f), Pending) == Select(p, fate, Pending)[n..]
    decreases |p|
  {
    if p != [] && n > 0 {
      MarkStep(fate, n, f);
      var later := Select(p[1..], fate[1..], Pending);
      if fate[0] == Pending {
        assert Select(p, fate, Pending) == [p[0]] + later;
        DropPrepended(p[0], later, n);
        MarkTakes(p[1..], fate[1..], n - 1, f);
        assert Select(p, Mark(fate, n, f), Pending) == Select(p[1..], Mark(fate[1..], n - 1, f), Pending);
      } else {
        assert Select(p, fate, Pending) == later;
        MarkTakes(p[1..], fate[1..], n, f);
        assert Select(p, Mark(fate, n, f), Pending) == Select(p[1..], Mark(fate[1..], n, f), Pending);
      }
    }
  }

  /** Pending events marked dropped leave the written ones alone. */
  lemma {:induction false} MarkDrops(p: seq<Event>, fate: seq<Fate>, n: nat)
    requires |p| == |fate|
    ensures Select(p, Mark(fate, n, Dropped), Written) == Select(p, fate, Written)
    decreases |p|
  {
    if p == [] || n == 0 {
    } else {
      MarkDrops(p[1..], fate[1..], if fate[0] == Pending then n - 1 else n);
    }
  }

  /** Pending events marked written follow the written ones, in order. */
  lemma {:induction false} MarkWrites(p: seq<Event>, fate: seq<Fate>, n: nat)
    requires |p| == |fate| && Ordered(fate) && n <= |Select(p, fate, Pending)|
    ensures Select(p, Mark(fate, n, Written), Written) == Select(p, fate, Written) + Select(p, fate, Pending)[..n]
    decreases |p|
  {
    if p == [] || n == 0 {
    } else {
      assert Ordered(fate[1..]);
      MarkWrites(p[1..], fate[1..], if fate[0] == Pending then n - 1 else n);
      if fate[0] == Pending {
        assert forall i :: 0 <= i < |fate[1..]| ==> fate[1..][i] == fate[i + 1];
        SelectNone(p, fate, Written);
        SelectNone(p[1..], fate[1..], Written);
        WriteFirst(p, fate, n);
      }
    }
  }

  lemma WriteFirst(p: seq<Event>, fate: seq<Fate>, n: nat)
    requires |p| == |fate| && p != [] && fate[0] == Pending && 0 < n <= |Select(p, fate, Pending)|
    requires Select(p[1..], Mark(fate[1..], n - 1, Written), Written) == Select(p[1..], fate[1..], Pending)[..n - 1]
    ensures Select(p, Mark(fate, n, Written), Written) == Select(p, fate, Pending)[..n]
  {
    var later := Select(p[1..], fate[1..], Pending);
    assert Select(p, fate, Pending) == [p[0]] + later;
    assert ([p[0]] + later)[..n] == [p[0]] + later[..n - 1];
    assert Mark(fate, n, Written)[1..] == Mark(fate[1..], n - 1, Written);
  }

  /** Marking a prefix of the pending events moves exactly that prefix, in order. */
  lemma MarkSelect(p: seq<Event>, fate: seq<Fate>, n: nat, f: Fate)
    requires |p| == |fate| && f != Pending && Ordered(fate) && n <= |Select(p, fate, Pending)|
    ensures Select(p, Mark(fate, n, f), Pending) == Select(p, fate, Pending)[n..]
    ensures f == Written ==>
              Select(p, Mark(fate, n, f), Written) == Select(p, fate, Written) + Select(p, fate, Pending)[..n]
    ensures f == Dropped ==> Select(p, Mark(fate, n, f), Written) == Select(p, fate, Written)
  {
    MarkTakes(p, fate, n, f);
    MarkDrops(p, fate, n);
    MarkWrites(p, fate, n);
  }

  // ---------------------------------------------------------------- runs

  datatype Sys = Sys(q: Queue, h: History)

  datatype Action =
    | Post(events: seq<Event>, wakes: int, admitted: bool, available: nat, writes: bool)
    | TakeChunk(quantum: nat)
    | WriteReturns(ok: bool)
    | RemoveChunk
    | Stop
    | Restart(ok: bool)

  function Init(): Sys { Sys(Queue(false, [], 0, Parked), History([], [], [])) }

  predicate Enabled(s: Sys, a: Action)
  {
    match a
    case Post(events, wakes, admitted, _, _) => admitted ==> s.q.run && wakes == CountWake(events)
    case TakeChunk(quantum) => s.q.run && s.q.phase.Parked? && s.q.entries != [] && quantum > 0
    case WriteReturns(_) => s.q.phase.Writing?
    case RemoveChunk => s.q.phase.Wrote?
    case Stop => true
    case Restart(_) => !s.q.run && s.q.phase.Parked?
  }

  /** What one post did: `n` written at once, the rest queued or dropped. */
  function PostFates(q: Queue, events: seq<Event>, n: nat): (r: seq<Fate>)
    requires n <= |events|
    ensures |r| == |events|
  {
    Same(n, Written) + Same(|events| - n, if Overflows(q, |events| - n) then Dropped else Pending)
  }

  predicate Shaped(s: Sys)
  {
    !s.q.phase.Parked? ==> s.q.entries != [] && s.q.phase.n <= |s.q.entries[0].events|
  }

  function Next(s: Sys, a: Action): Sys
    requires Shaped(s) && Enabled(s, a)
  {
    match a
    case Post(events, wakes, admitted, available, writes) =>
      if !admitted then s.(h := s.h.(posted := s.h.posted + events, fate := s.h.fate + Same(|events|, Dropped)))
      else
        var n := DirectWrite(s.q, events, available, writes);
        Sys(Offer(s.q, events, wakes, n),
            History(s.h.posted + events, s.h.fate + PostFates(s.q, events, n), s.h.written + events[..n]))
    case TakeChunk(quantum) => s.(q := Take(s.q, quantum))
    case WriteReturns(ok) =>
      var n := s.q.phase.n;
      Sys(s.q.(phase := Wrote(n, s.q.phase.quantum, s.q.phase.wakes)),
          s.h.(fate := Mark(s.h.fate, n, if ok then Written else Dropped),
               written := if ok then s.h.written + s.q.entries[0].events[..n] else s.h.written))
    case RemoveChunk => s.(q := Remove(s.q))
    case Stop => s.(q := s.q.(run := false))
    case Restart(ok) => Sys(Queue(ok, [], 0, Parked), History([], [], []))
  }

  function Done(q: Queue): nat { if q.phase.Wrote? then q.phase.n else 0 }

  /** Queued events whose write has not returned yet. */
  function Backlog(q: Queue): seq<Event>
    requires Done(q) <= |Flat(q.entries)|
  {
    Flat(q.entries)[Done(q)..]
  }

  ghost predicate EntryInv(e: Entry) { e.events != [] && e.wakes == CountWake(e.events) }

  /** The chunk the worker is on is a non-empty prefix of the front entry. */
  ghost predicate ChunkInv(q: Queue, n: nat, quantum: nat, wakes: nat)
  {
    && q.entries != [] && 0 < quantum
    && n == Min(|q.entries[0].events|, quantum)
    && wakes == CountWake(q.entries[0].events[..n])
  }

  ghost predicate QueueInv(q: Queue)
  {
    && q.size == |Flat(q.entries)| <= MAX_PENDING
    && (forall i :: 0 <= i < |q.entries| ==> EntryInv(q.entries[i]))
    && (!q.phase.Parked? ==> ChunkInv(q, q.phase.n, q.phase.quantum, q.phase.wakes))
  }

  ghost predicate Inv(s: Sys)
  {
    && QueueInv(s.q)
    && Done(s.q) <= |Flat(s.q.entries)|
    && HistoryInv(s.h, Backlog(s.q))
  }

  /** The history accounts for what was written and for what is still pending. */
  ghost predicate HistoryInv(h: History, pending: seq<Event>)
  {
    && |h.posted| == |h.fate|
    && Ordered(h.fate)
    && h.written == Select(h.posted, h.fate, Written)
    && pending == Select(h.posted, h.fate, Pending)
  }

  lemma PostQueueInv(q: Queue, events: seq<Event>, n: nat)
    requires QueueInv(q) && n <= |events|
    ensures var q' := Offer(q, events, CountWake(events), n);
            && QueueInv(q')
            && Flat(q'.entries) == Flat(q.entries) + (if Overflows(q, |events| - n) then [] else events[n..])
  {
    CountWakeSplit(events, n);
    FlatAppend(q.entries, Entry(events[n..], CountWake(events) - CountWake(events[..n])));
  }

  lemma SelectTwo(events: seq<Event>, n: nat, left: Fate, f: Fate)
    requires n <= |events| && f != Dropped && left != Written
    ensures Select(events, Same(n, Written) + Same(|events| - n, left), f)
         == if f == Written then events[..n] else if f == left then events[n..] else []
  {
    assert events[..n] + events[n..] == events;
    SelectAppend(events[..n], Same(n, Written), events[n..], Same(|events| - n, left), f);
    SelectSame(events[..n], Written, f);
    SelectSame(events[n..], left, f);
  }

  /** A post's events enter the history in order behind what was there. */
  lemma PostSelect(h: History, q: Queue, events: seq<Event>, n: nat, f: Fate)
    requires |h.posted| == |h.fate| && n <= |events| && f != Dropped
    ensures Select(h.posted + events, h.fate + PostFates(q, events, n), f)
         == Select(h.posted, h.fate, f)
            + (if f == Written then events[..n] else if Overflows(q, |events| - n) then [] else events[n..])
  {
    SelectAppend(h.posted, h.fate, events, PostFates(q, events, n), f);
    SelectTwo(events, n, if Overflows(q, |events| - n) then Dropped else Pending, f);
  }

  lemma PostInv(s: Sys, a: Action)
    requires Inv(s) && Enabled(s, a) && a.Post? && a.admitted
    ensures Inv(Next(s, a))
  {
    var n := DirectWrite(s.q, a.events, a.available, a.writes);
    PostSelect(s.h, s.q, a.events, n, Written);
    PostSelect(s.h, s.q, a.events, n, Pending);
    PostOrdered(s.h, s.q, a.events, n);
    PostBacklog(s.q, a.events, n);
  }

  /** The backlog grows by what a post leaves over and does not drop. */
  lemma PostBacklog(q: Queue, events: seq<Event>, n: nat)
    requires QueueInv(q) && Done(q) <= |Flat(q.entries)| && n <= |events|
    ensures var q' := Offer(q, events, CountWake(events), n);
            && QueueInv(q') && Done(q') <= |Flat(q'.entries)|
            && Backlog(q') == Backlog(q) + (if Overflows(q, |events| - n) then [] else events[n..])
  {
    PostQueueInv(q, events, n);
  }

  lemma PostOrdered(h: History, q: Queue, events: seq<Event>, n: nat)
    requires |h.posted| == |h.fate| && n <= |events| && Ordered(h.fate)
    requires n > 0 ==> Select(h.posted, h.fate, Pending) == []
    ensures Ordered(h.fate + PostFates(q, events, n))
  {
    if n > 0 { NoPending(h.posted, h.fate); }
  }

  /** If nothing is selected as pending, nothing is pending. */
  lemma {:induction false} NoPending(p: seq<Event>, fate: seq<Fate>)
    requires |p| == |fate| && Select(p, fate, Pending) == []
    ensures forall i :: 0 <= i < |fate| ==> fate[i] != Pending
    decreases |p|
  {
    if p != [] { NoPending(p[1..], fate[1..]); }
  }

  lemma RejectInv(s: Sys, a: Action)
    requires Inv(s) && a.Post? && !a.admitted
    ensures Inv(Next(s, a))
  {
    SelectAppend(s.h.posted, s.h.fate, a.events, Same(|a.events|, Dropped), Written);
    SelectAppend(s.h.posted, s.h.fate, a.events, Same(|a.events|, Dropped), Pending);
    SelectSame(a.events, Dropped, Written);
    SelectSame(a.events, Dropped, Pending);
  }

  /** The chunk leaves the backlog as soon as its write returns. */
  lemma ChunkLeaves(q: Queue, q': Queue)
    requires QueueInv(q) && q.phase.Writing? && q' == q.(phase := Wrote(q.phase.n, q.phase.quantum, q.phase.wakes))
    ensures QueueInv(q') && Done(q) <= |Flat(q.entries)| && Done(q') <= |Flat(q'.entries)|
    ensures q.phase.n <= |Backlog(q)| && Backlog(q') == Backlog(q)[q.phase.n..]
    ensures Backlog(q)[..q.phase.n] == q.entries[0].events[..q.phase.n]
  {
    var n := q.phase.n;
    assert Flat(q.entries) == q.entries[0].events + Flat(q.entries[1..]);
    assert Flat(q.entries)[..n] == q.entries[0].events[..n];
  }

  lemma MarkHistory(h: History, h': History, pending: seq<Event>, n: nat, ok: bool)
    requires HistoryInv(h, pending) && n <= |pending|
    requires h' == h.(fate := Mark(h.fate, n, if ok then Written else Dropped),
                      written := if ok then h.written + pending[..n] else h.written)
    ensures HistoryInv(h', pending[n..])
  {
    var f := if ok then Written else Dropped;
    MarkSelect(h.posted, h.fate, n, f);
    MarkKeepsOthers(h.fate, n, f);
  }

  lemma WriteReturnsInv(s: Sys, ok: bool)
    requires Inv(s) && s.q.phase.Writing?
    ensures Inv(Next(s, WriteReturns(ok)))
    ensures var (b, b') := (Backlog(s.q), Backlog(Next(s, WriteReturns(ok)).q));
            s.q.phase.n <= |b| && b' == b[s.q.phase.n..] && s.q.phase.wakes == CountWake(b[..s.q.phase.n])
  {
    var s' := Next(s, WriteReturns(ok));
    ChunkLeaves(s.q, s'.q);
    MarkHistory(s.h, s'.h, Backlog(s.q), s.q.phase.n, ok);
  }

  lemma RemoveQueueInv(q: Queue)
    requires QueueInv(q) && q.phase.Wrote?
    ensures QueueInv(Remove(q)) && Backlog(Remove(q)) == Flat(q.entries)[q.phase.n..]
  {
    var front := q.entries[0];
    var q' := Remove(q);
    assert EntryInv(front);
    if |front.events| > q.phase.quantum {
      CountWakeSplit(front.events, q.phase.n);
      var rest := front.(wakes := front.wakes - q.phase.wakes, events := front.events[q.phase.quantum..]);
      assert q'.entries == [rest] + q.entries[1..];
      assert q'.entries[1..] == q.entries[1..];
    }
    assert forall i :: 0 <= i < |q.entries[1..]| ==> EntryInv(q.entries[1..][i]);
  }

  lemma InvNext(s: Sys, a: Action)
    requires Inv(s) && Enabled(s, a)
    ensures Inv(Next(s, a))
  {
    match a
    case Post(_, _, admitted, _, _) => if admitted { PostInv(s, a); } else { RejectInv(s, a); }
    case WriteReturns(ok) => WriteReturnsInv(s, ok);
    case RemoveChunk => RemoveQueueInv(s.q);
    case TakeChunk(_) => assert EntryInv(s.q.entries[0]);
    case _ =>
  }

  // ---------------------------------------------------------------- theorems over every run

  ghost predicate Run(states: seq<Sys>, acts: seq<Action>)
  {
    && |states| == |acts| + 1
    && states[0] == Init()
    && forall i :: 0 <= i < |acts| ==> StepAt(states, acts, i)
  }

  ghost predicate StepAt(states: seq<Sys>, acts: seq<Action>, i: nat)
    requires i < |acts| < |states|
  {
    Shaped(states[i]) && Enabled(states[i], acts[i]) && states[i + 1] == Next(states[i], acts[i])
  }

  lemma {:induction false} InvAt(states: seq<Sys>, acts: seq<Action>, i: nat)
    requires Run(states, acts) && i < |states|
    ensures Inv(states[i])
  {
    if i > 0 {
      InvAt(states, acts, i - 1);
      assert StepAt(states, acts, i - 1);
      InvNext(states[i - 1], acts[i - 1]);
    }
  }

  /** The posted events that were not dropped, in posting order. */
  function Kept(posted: seq<Event>, fate: seq<Fate>): seq<Event>
    requires |posted| == |fate|
  {
    if posted == [] then []
    else (if fate[0] != Dropped then [posted[0]] else []) + Kept(posted[1..], fate[1..])
  }

  lemma {:induction false} KeptIsPending(p: seq<Event>, fate: seq<Fate>)
    requires |p| == |fate| && forall i :: 0 <= i < |fate| ==> fate[i] != Written
    ensures Select(p, fate, Written) == [] && Kept(p, fate) == Select(p, fate, Pending)
    decreases |p|
  {
    if p != [] { KeptIsPending(p[1..], fate[1..]); }
  }

  lemma {:induction false} WrittenThenPending(p: seq<Event>, fate: seq<Fate>)
    requires |p| == |fate| && Ordered(fate)
    ensures Select(p, fate, Written) + Select(p, fate, Pending) == Kept(p, fate)
    decreases |p|
  {
    if p != [] {
      if fate[0] == Pending {
        KeptIsPending(p, fate);
      } else {
        assert Ordered(fate[1..]);
        WrittenThenPending(p[1..], fate[1..]);
      }
    }
  }

  /** Every posted event is written, pending or dropped; the written ones followed by the backlog are the surviving
      posts in posting order; the counters are exact and bounded. */
  ghost predicate Conserved(s: Sys)
  {
    && |s.h.posted| == |s.h.fate|
    && Done(s.q) <= |Flat(s.q.entries)|
    && s.h.written + Backlog(s.q) == Kept(s.h.posted, s.h.fate)
    && s.h.written == Select(s.h.posted, s.h.fate, Written)
    && Backlog(s.q) == Select(s.h.posted, s.h.fate, Pending)
    && s.q.size == |Flat(s.q.entries)| <= MAX_PENDING
    && forall j :: 0 <= j < |s.q.entries| ==> s.q.entries[j].wakes == CountWake(s.q.entries[j].events)
  }

  lemma InvConserves(s: Sys)
    requires Inv(s)
    ensures Conserved(s)
  {
    WrittenThenPending(s.h.posted, s.h.fate);
    forall j | 0 <= j < |s.q.entries| ensures s.q.entries[j].wakes == CountWake(s.q.entries[j].events) {
      assert EntryInv(s.q.entries[j]);
    }
  }

  /** Conservation and FIFO in every run. */
  lemma EventsAreConservedInOrder(states: seq<Sys>, acts: seq<Action>, i: nat)
    requires Run(states, acts) && i < |states|
    ensures Conserved(states[i])
  {
    InvAt(states, acts, i);
    InvConserves(states[i]);
  }

  /** A post writes to the FMQ only while the worker is outside its unlocked write. */
  lemma OneWriterAtATime(states: seq<Sys>, acts: seq<Action>, i: nat)
    requires Run(states, acts) && i < |acts| && acts[i].Post? && acts[i].admitted
    requires DirectWrite(states[i].q, acts[i].events, acts[i].available, acts[i].writes) > 0
    ensures states[i].q.phase.Parked?
  {
    InvAt(states, acts, i);
  }

  /** No unsigned subtraction of the code wraps. */
  lemma NoSubtractionWraps(states: seq<Sys>, acts: seq<Action>, i: nat)
    requires Run(states, acts) && i < |acts|
    ensures var (s, a) := (states[i], acts[i]);
            && (a.RemoveChunk? ==>
                  s.q.phase.Wrote? && s.q.entries != []
                  && 0 <= s.q.phase.n <= s.q.size && 0 <= s.q.phase.wakes <= s.q.entries[0].wakes)
            && (a.Post? && a.admitted ==>
                  var n := DirectWrite(s.q, a.events, a.available, a.writes);
                  n <= |a.events| && CountWake(a.events[..n]) <= a.wakes)
  {
    InvAt(states, acts, i);
    assert StepAt(states, acts, i);
    var (s, a) := (states[i], acts[i]);
    if a.RemoveChunk? {
      assert EntryInv(s.q.entries[0]);
      CountWakeSplit(s.q.entries[0].events, s.q.phase.n);
    }
    if a.Post? && a.admitted {
      CountWakeSplit(a.events, DirectWrite(s.q, a.events, a.available, a.writes));
    }
  }
}
