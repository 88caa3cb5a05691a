/**
 The sensors HAL proxy: event queue, wake-lock references, tokens, framework acknowledgements and re-initialization
 as one machine. Every region under one of the two mutexes and the unlocked FMQ write are separate steps. A post is
 three of them, because it holds the queue's mutex throughout but the counter's only while it charges its wake events
 and while it gives back those it drops; timeouts, acknowledgements and tokens may come in between.
 */
module HalProxy {
  import opened Common
  import P = PendingEvents
  import W = WakeLock

  /** The post that holds the queue's mutex: charged and not yet written or queued, or about to give back the
      references of the wake events it drops. */
  datatype Posting = NoPost | Charged(events: seq<P.Event>) | Excess(wakes: nat)

  /** `unacked`: wake events written and not yet acknowledged. `clean`: the last wake-lock reset came at a later
      clock reading than everything before it and found no wake event outstanding; an initialization discards those
      events, so it is such a reset. `now`: the latest clock reading. */
  datatype Sys = Sys(p: P.Sys, l: W.Lock, tokens: map<nat, W.Scoped>, posting: Posting, unacked: int, clean: bool,
                     now: int)

  datatype Action =
    | Create(id: nat, lock: bool, acquires: bool, t: int)
    | MoveConstruct(dst: nat, src: nat)
    | MoveAssign(to: nat, from: nat)
    | Destroy(token: nat)
    | BeginPost(with: nat, events: seq<P.Event>, canAcquire: bool, at: int)
    | SettlePost(available: nat, writes: bool)
    | DropExcess
    | TakeChunk(quantum: nat)
    | WriteReturns(ok: bool)
    | RemoveChunk
    | Ack(n: nat)
    | Timeout(when: int)
    | Stop
    | WakelockThreadExit(exit: int)
    | Initialize(begin: int, valid: bool)

  function Init(now: int): Sys { Sys(P.Init(), W.Init(now), map[], NoPost, 0, false, now) }

  /** HalProxyCallback::postEvents turns the post away before it takes the queue's mutex. */
  predicate TurnedAway(run: bool, token: W.Scoped, events: seq<P.Event>)
  {
    events == [] || !run || (P.CountWake(events) > 0 && !token.locked)
  }

  /** Time never runs backwards; C++ object lifetimes are respected; whatever needs the queue's mutex waits for the
      post that holds it; workers are joined before re-initialization. */
  predicate Enabled(s: Sys, a: Action)
  {
    match a
    case Create(id, _, _, t) => id !in s.tokens && t >= s.now
    case MoveConstruct(dst, src) => dst !in s.tokens && src in s.tokens
    case MoveAssign(to, from) => to in s.tokens && from in s.tokens
    case Destroy(id) => id in s.tokens
    case BeginPost(id, events, _, t) =>
      id in s.tokens && t >= s.now && (s.posting.NoPost? || TurnedAway(s.p.q.run, s.tokens[id], events))
    case SettlePost(_, _) => s.posting.Charged?
    case DropExcess => s.posting.Excess?
    case TakeChunk(quantum) => s.posting.NoPost? && P.Enabled(s.p, P.TakeChunk(quantum))
    case WriteReturns(ok) => P.Enabled(s.p, P.WriteReturns(ok))
    case RemoveChunk => s.posting.NoPost? && P.Enabled(s.p, P.RemoveChunk)
    case Ack(_) => true
    case Timeout(t) => t >= s.now && s.p.q.run && s.l.refs > 0 && W.TimedOut(s.l, t)
    case Stop => s.posting.NoPost?
    case WakelockThreadExit(t) => t >= s.now && !s.p.q.run
    case Initialize(t, valid) => s.posting.NoPost? && t >= s.now && P.Enabled(s.p, P.Restart(valid))
  }

  predicate Shaped(s: Sys)
  {
    && P.Shaped(s.p) && P.Done(s.p.q) <= |P.Flat(s.p.q.entries)| && s.l.refs >= 0
    && (s.posting.Charged? ==> s.p.q.run)
  }

  function BacklogWakes(q: P.Queue): nat
    requires P.Done(q) <= |P.Flat(q.entries)|
  {
    P.CountWake(P.Backlog(q))
  }

  /** Wake events of the post under way that are charged and neither written nor queued. */
  function PostWakes(p: Posting): nat
  {
    match p
    case NoPost => 0
    case Charged(events) => P.CountWake(events)
    case Excess(wakes) => wakes
  }

  /** Wake events charged and not yet written: queued, or in the hands of a post. */
  function Queued(s: Sys): nat
    requires P.Done(s.p.q) <= |P.Flat(s.p.q.entries)|
  {
    BacklogWakes(s.p.q) + PostWakes(s.posting)
  }

  predicate NoWakeEventOutstanding(s: Sys)
    requires Shaped(s)
  {
    Queued(s) == 0 && s.unacked == 0
  }

  // ---------------------------------------------------------------- the regions of a post

  /** The start of postEventsToMessageQueue: whether the post goes on, and the lock after that decision. */
  function Gate(run: bool, l: W.Lock, locked: bool, wakes: nat, canAcquire: bool, t: int): (W.Lock, bool)
  {
    if !run then (l, false) else if locked then W.Increment(l, run, wakes, canAcquire, t) else (l, true)
  }

  /** HalProxyCallback::postEvents up to and including the charge. */
  function Admit(run: bool, l: W.Lock, token: W.Scoped, events: seq<P.Event>, canAcquire: bool, t: int): (W.Lock, bool)
  {
    if TurnedAway(run, token, events) then (l, false)
    else Gate(run, l, token.locked, P.CountWake(events), canAcquire, t)
  }

  /** What is left of the post once it has written `n` events and queued or refused the rest. */
  function AfterSettle(q: P.Queue, events: seq<P.Event>, n: nat): Posting
    requires n <= |events|
  {
    if n < |events| && P.Overflows(q, |events| - n) then Excess(P.CountWake(events[n..])) else NoPost
  }

  /** The end of a post: a drop gives its references back. */
  function AfterDrop(l: W.Lock, p: Posting): W.Lock
  {
    if p.Excess? then W.Decrement(l, p.wakes, None) else l
  }

  function Begin(s: Sys, token: W.Scoped, events: seq<P.Event>, canAcquire: bool, t: int): Sys
    requires Shaped(s)
  {
    var (l, admitted) := Admit(s.p.q.run, s.l, token, events, canAcquire, t);
    if admitted then s.(l := l, posting := Charged(events), now := if token.locked then t else s.now)
    else s.(p := P.Next(s.p, P.Post(events, P.CountWake(events), false, 0, false)))
  }

  function Settle(s: Sys, available: nat, writes: bool): Sys
    requires Shaped(s) && s.posting.Charged?
  {
    var events := s.posting.events;
    var n := P.DirectWrite(s.p.q, events, available, writes);
    s.(p := P.Next(s.p, P.Post(events, P.CountWake(events), true, available, writes)),
       posting := AfterSettle(s.p.q, events, n),
       unacked := s.unacked + P.CountWake(events[..n]))
  }

  // ---------------------------------------------------------------- the machine

  function Release(l: W.Lock, token: W.Scoped): W.Lock
  {
    if token.locked then W.Decrement(l, 1, Some(token.createdAt)) else l
  }

  function Unlocked(token: W.Scoped): W.Scoped { token.(locked := false) }

  /** resetSharedWakelock, with the verdict whether the count is exact from here on. */
  function Forget(s: Sys, t: int): Sys
    requires Shaped(s)
  {
    s.(l := W.Reset(s.l, t), clean := t > s.now && NoWakeEventOutstanding(s), now := t)
  }

  function Next(s: Sys, a: Action): Sys
    requires Shaped(s) && Enabled(s, a)
  {
    match a
    case Create(id, lock, acquires, t) =>
      var r := if lock then W.Increment(s.l, s.p.q.run, 1, acquires, t) else (s.l, false);
      s.(l := r.0, tokens := s.tokens[id := W.Scoped(r.1, if r.1 then t else 0)], now := if r.1 then t else s.now)
    case MoveConstruct(dst, src) =>
      s.(tokens := s.tokens[dst := s.tokens[src]][src := Unlocked(s.tokens[src])])
    case MoveAssign(to, from) =>
      if to == from then s
      else s.(l := Release(s.l, s.tokens[to]),
              tokens := s.tokens[to := s.tokens[from]][from := Unlocked(s.tokens[from])])
    case Destroy(id) => s.(l := Release(s.l, s.tokens[id]), tokens := s.tokens - {id})
    case BeginPost(id, events, canAcquire, t) => Begin(s, s.tokens[id], events, canAcquire, t)
    case SettlePost(available, writes) => Settle(s, available, writes)
    case DropExcess => s.(l := AfterDrop(s.l, s.posting), posting := NoPost)
    case TakeChunk(quantum) => s.(p := P.Next(s.p, P.TakeChunk(quantum)))
    case WriteReturns(ok) =>
      s.(p := P.Next(s.p, P.WriteReturns(ok)),
         l := if ok then s.l else W.Decrement(s.l, s.p.q.phase.wakes, None),
         unacked := if ok then s.unacked + s.p.q.phase.wakes else s.unacked)
    case RemoveChunk => s.(p := P.Next(s.p, P.RemoveChunk))
    case Ack(n) => s.(l := W.Decrement(s.l, n, None), unacked := s.unacked - n)
    case Timeout(t) => Forget(s, t)
    case Stop => s.(p := P.Next(s.p, P.Stop))
    case WakelockThreadExit(t) => Forget(s, t)
    case Initialize(t, valid) =>
      Sys(P.Next(s.p, P.Restart(valid)), W.Reset(s.l, t), s.tokens, NoPost, 0, t > s.now, t)
  }

  // ---------------------------------------------------------------- queue and lock invariants carry over

  /** The queue action a proxy action performs, if any. */
  function QueuePart(s: Sys, a: Action): Option<P.Action>
    requires Enabled(s, a)
  {
    match a
    case BeginPost(id, events, canAcquire, t) =>
      if Admit(s.p.q.run, s.l, s.tokens[id], events, canAcquire, t).1 then None
      else Some(P.Post(events, P.CountWake(events), false, 0, false))
    case SettlePost(available, writes) =>
      Some(P.Post(s.posting.events, P.CountWake(s.posting.events), true, available, writes))
    case TakeChunk(quantum) => Some(P.TakeChunk(quantum))
    case WriteReturns(ok) => Some(P.WriteReturns(ok))
    case RemoveChunk => Some(P.RemoveChunk)
    case Stop => Some(P.Stop)
    case Initialize(_, valid) => Some(P.Restart(valid))
    case _ => None
  }

  ghost predicate Inv(s: Sys) { P.Inv(s.p) && W.Inv(s.l) && (s.posting.Charged? ==> s.p.q.run) }

  lemma QueueInvNext(s: Sys, a: Action)
    requires Inv(s) && Enabled(s, a)
    ensures var part := QueuePart(s, a);
            && (part.Some? ==> P.Enabled(s.p, part.value))
            && Next(s, a).p == (if part.Some? then P.Next(s.p, part.value) else s.p)
            && P.Inv(Next(s, a).p)
  {
    var part := QueuePart(s, a);
    if part.Some? { P.InvNext(s.p, part.value); }
  }

  /** Only Stop and Initialize change the run flag, and neither happens during a post. */
  lemma PostKeepsRunning(s: Sys, a: Action)
    requires Inv(s) && Enabled(s, a)
    ensures Next(s, a).posting.Charged? ==> Next(s, a).p.q.run
  {
  }

  lemma LockInvNext(s: Sys, a: Action)
    requires Inv(s) && Enabled(s, a)
    ensures W.Inv(Next(s, a).l)
  {
    match a
    case Create(_, _, acquires, t) => W.IncrementInv(s.l, s.p.q.run, 1, acquires, t);
    case MoveAssign(to, from) => W.DecrementInv(s.l, 1, Some(s.tokens[to].createdAt));
    case Destroy(id) => W.DecrementInv(s.l, 1, Some(s.tokens[id].createdAt));
    case BeginPost(_, events, canAcquire, t) => W.IncrementInv(s.l, s.p.q.run, P.CountWake(events), canAcquire, t);
    case DropExcess => W.DecrementInv(s.l, s.posting.wakes, None);
    case WriteReturns(ok) => W.DecrementInv(s.l, s.p.q.phase.wakes, None);
    case Ack(n) => W.DecrementInv(s.l, n, None);
    case Timeout(t) => W.DecrementInv(s.l, s.l.refs, None);
    case WakelockThreadExit(t) => W.DecrementInv(s.l, s.l.refs, None);
    case Initialize(t, _) => W.DecrementInv(s.l, s.l.refs, None);
    case _ =>
  }

  predicate Increments(a: Action) { a.Create? || a.BeginPost? }

  predicate Resets(a: Action) { a.Timeout? || a.WakelockThreadExit? || a.Initialize? }

  // ---------------------------------------------------------------- reference accounting

  /** All tokens that are locked. */
  function LockedTokens(tokens: map<nat, W.Scoped>): set<nat>
  {
    set id | id in tokens && tokens[id].locked
  }

  /** Locked tokens whose reference the counter still honours: those locked since the last reset. */
  function Fresh(tokens: map<nat, W.Scoped>, reset: int): set<nat>
  {
    set id | id in tokens && tokens[id].locked && tokens[id].createdAt >= reset
  }

  /** Locked tokens whose reference a reset has forgotten. */
  function Stale(tokens: map<nat, W.Scoped>, reset: int): set<nat>
  {
    set id | id in tokens && tokens[id].locked && tokens[id].createdAt < reset
  }

  /** What the counter answers for: tokens locked since the last reset, and wake events queued, in the hands of a
      post, or written and not acknowledged. */
  function Owed(s: Sys): int
    requires P.Done(s.p.q) <= |P.Flat(s.p.q.entries)|
  {
    |Fresh(s.tokens, s.l.reset)| + Queued(s) + s.unacked
  }

  /** Everything that ought to keep the device awake: all locked tokens, and the same wake events. */
  function FullyOwed(s: Sys): int
    requires P.Done(s.p.q) <= |P.Flat(s.p.q.entries)|
  {
    |LockedTokens(s.tokens)| + Queued(s) + s.unacked
  }

  lemma FreshAndStale(tokens: map<nat, W.Scoped>, reset: int)
    ensures |LockedTokens(tokens)| == |Fresh(tokens, reset)| + |Stale(tokens, reset)|
  {
    assert LockedTokens(tokens) == Fresh(tokens, reset) + Stale(tokens, reset);
    assert Fresh(tokens, reset) !! Stale(tokens, reset);
  }

  /** The count against a set of tokens, `queued` wake events not yet written and `unacked` written ones. */
  ghost predicate Ledger(l: W.Lock, tokens: map<nat, W.Scoped>, queued: nat, unacked: int, clean: bool, now: int)
  {
    && W.Inv(l) && unacked >= 0 && l.reset <= now
    && (forall id :: id in tokens && tokens[id].locked ==> tokens[id].createdAt <= now)
    && l.refs <= |Fresh(tokens, l.reset)| + queued + unacked
    && (clean ==> l.refs == |Fresh(tokens, l.reset)| + queued + unacked)
  }

  ghost predicate RefInv(s: Sys)
  {
    && P.Inv(s.p) && (s.posting.Charged? ==> s.p.q.run)
    && Ledger(s.l, s.tokens, Queued(s), s.unacked, s.clean, s.now)
  }

  /** The framework acknowledges no more wake events than it was sent. */
  predicate Honest(s: Sys, a: Action) { a.Ack? ==> a.n <= s.unacked }

  /** Paying `delta` off a count that is at most (exactly) `owed`. */
  lemma Pay(l: W.Lock, delta: nat, owed: int)
    requires 0 <= l.refs <= owed && delta <= owed
    ensures W.Decrement(l, delta, None).refs <= owed - delta
    ensures l.refs == owed ==> W.Decrement(l, delta, None).refs == owed - delta
  {
  }

  lemma CreateLedger(s: Sys, a: Action, queued: nat)
    requires Shaped(s) && Enabled(s, a) && a.Create?
    requires Ledger(s.l, s.tokens, queued, s.unacked, s.clean, s.now)
    ensures var s' := Next(s, a); Ledger(s'.l, s'.tokens, queued, s'.unacked, s'.clean, s'.now)
  {
    var s' := Next(s, a);
    W.IncrementInv(s.l, s.p.q.run, 1, a.acquires, a.t);
    var f, f' := Fresh(s.tokens, s.l.reset), Fresh(s'.tokens, s.l.reset);
    assert f' == if s'.tokens[a.id].locked then f + {a.id} else f;
  }

  /** Handing a token over changes who owns the reference, not how many there are. */
  lemma FreshAfterMove(tokens: map<nat, W.Scoped>, dst: nat, src: nat, reset: int)
    requires src in tokens && dst != src
    ensures var moved := tokens[dst := tokens[src]][src := Unlocked(tokens[src])];
            |Fresh(moved, reset)| == |Fresh(tokens, reset)| - (if dst in Fresh(tokens, reset) then 1 else 0)
  {
    var f := Fresh(tokens, reset);
    var f' := Fresh(tokens[dst := tokens[src]][src := Unlocked(tokens[src])], reset);
    if src in f && dst in f {
      assert f' == f - {src};
    } else if src in f {
      assert f' == (f - {src}) + {dst};
      assert |f - {src}| == |f| - 1;
    } else {
      assert f' == f - {dst};
    }
  }

  /** Giving up token `id` pays for it exactly when the counter still honours it. */
  lemma ReleaseLedger(l: W.Lock, tokens: map<nat, W.Scoped>, tokens': map<nat, W.Scoped>, id: nat,
                      queued: nat, unacked: int, clean: bool, now: int)
    requires Ledger(l, tokens, queued, unacked, clean, now) && id in tokens
    requires |Fresh(tokens', l.reset)| == |Fresh(tokens, l.reset)| - (if id in Fresh(tokens, l.reset) then 1 else 0)
    requires forall x :: x in tokens' && tokens'[x].locked ==> tokens'[x].createdAt <= now
    ensures Ledger(Release(l, tokens[id]), tokens', queued, unacked, clean, now)
  {
    W.DecrementInv(l, 1, Some(tokens[id].createdAt));
    if id in Fresh(tokens, l.reset) {
      assert Fresh(tokens, l.reset) != {};
      Pay(l, 1, |Fresh(tokens, l.reset)| + queued + unacked);
    }
  }

  lemma TokenLedger(s: Sys, a: Action, queued: nat)
    requires Shaped(s) && Enabled(s, a) && (a.MoveConstruct? || a.MoveAssign? || a.Destroy?)
    requires Ledger(s.l, s.tokens, queued, s.unacked, s.clean, s.now)
    ensures var s' := Next(s, a); Ledger(s'.l, s'.tokens, queued, s'.unacked, s'.clean, s'.now)
  {
    var s' := Next(s, a);
    match a
    case MoveConstruct(dst, src) => FreshAfterMove(s.tokens, dst, src, s.l.reset);
    case MoveAssign(to, from) =>
      if to != from {
        FreshAfterMove(s.tokens, to, from, s.l.reset);
        ReleaseLedger(s.l, s.tokens, s'.tokens, to, queued, s.unacked, s.clean, s.now);
      }
    case Destroy(id) =>
      assert Fresh(s'.tokens, s.l.reset) == Fresh(s.tokens, s.l.reset) - {id};
      ReleaseLedger(s.l, s.tokens, s'.tokens, id, queued, s.unacked, s.clean, s.now);
  }

  /** An admitted post is charged for exactly its wake events. */
  lemma AdmitCharges(run: bool, l: W.Lock, token: W.Scoped, events: seq<P.Event>, canAcquire: bool, t: int)
    requires W.Inv(l)
    ensures var (l', admitted) := Admit(run, l, token, events, canAcquire, t);
            && (admitted ==> run && W.Inv(l') && l'.reset == l.reset && l'.refs == l.refs + P.CountWake(events))
            && (!admitted ==> l' == l)
  {
    W.IncrementInv(l, run, P.CountWake(events), canAcquire, t);
  }

  lemma BeginRefInv(s: Sys, a: Action)
    requires RefInv(s) && Enabled(s, a) && a.BeginPost?
    ensures RefInv(Next(s, a))
  {
    QueueInvNext(s, a);
    AdmitCharges(s.p.q.run, s.l, s.tokens[a.with], a.events, a.canAcquire, a.at);
  }

  /** The backlog grows by what a post leaves over and does not drop. */
  lemma PostBacklogWakes(q: P.Queue, events: seq<P.Event>, n: nat)
    requires P.QueueInv(q) && P.Done(q) <= |P.Flat(q.entries)| && n <= |events|
    ensures var q' := P.Offer(q, events, P.CountWake(events), n);
            && P.Done(q') <= |P.Flat(q'.entries)|
            && BacklogWakes(q') + PostWakes(AfterSettle(q, events, n)) + P.CountWake(events[..n])
               == BacklogWakes(q) + P.CountWake(events)
  {
    P.PostBacklog(q, events, n);
    P.CountWakeSplit(events, n);
    P.CountWakeAppend(P.Backlog(q), if P.Overflows(q, |events| - n) then [] else events[n..]);
  }

  /** Settling moves the charged events to the framework, to the queue or to the drop; nothing is created or lost. */
  lemma SettleRefInv(s: Sys, a: Action)
    requires RefInv(s) && Enabled(s, a) && a.SettlePost?
    ensures RefInv(Next(s, a))
  {
    QueueInvNext(s, a);
    PostBacklogWakes(s.p.q, s.posting.events, P.DirectWrite(s.p.q, s.posting.events, a.available, a.writes));
  }

  lemma WriteRefInv(s: Sys, a: Action)
    requires RefInv(s) && Enabled(s, a) && a.WriteReturns?
    ensures RefInv(Next(s, a))
  {
    QueueInvNext(s, a);
    LockInvNext(s, a);
    P.WriteReturnsInv(s.p, a.ok);
    P.CountWakeSplit(P.Backlog(s.p.q), s.p.q.phase.n);
    Pay(s.l, s.p.q.phase.wakes, Owed(s));
  }

  /** A reset forgets every reference, so the books balance afterwards exactly when no event is outstanding. */
  lemma ResetLedger(s: Sys, t: int)
    requires RefInv(s) && Shaped(s) && s.now <= t
    ensures Ledger(W.Reset(s.l, t), s.tokens, Queued(s), s.unacked, t > s.now && NoWakeEventOutstanding(s), t)
    ensures W.Reset(s.l, t).refs == 0
    ensures t > s.now ==> Fresh(s.tokens, t) == {}
  {
    W.DecrementInv(s.l, s.l.refs, None);
    if t > s.now { assert Fresh(s.tokens, t) == {}; }
  }

  lemma TokenRefInv(s: Sys, a: Action)
    requires RefInv(s) && Enabled(s, a) && (a.Create? || a.MoveConstruct? || a.MoveAssign? || a.Destroy?)
    ensures RefInv(Next(s, a))
  {
    if a.Create? { CreateLedger(s, a, Queued(s)); } else { TokenLedger(s, a, Queued(s)); }
  }

  lemma CounterRefInv(s: Sys, a: Action)
    requires RefInv(s) && Enabled(s, a) && Honest(s, a) && (a.DropExcess? || a.Ack?)
    ensures RefInv(Next(s, a))
  {
    LockInvNext(s, a);
    Pay(s.l, if a.Ack? then a.n else s.posting.wakes, Owed(s));
  }

  lemma ResetRefInv(s: Sys, a: Action)
    requires RefInv(s) && Enabled(s, a) && Resets(a)
    ensures RefInv(Next(s, a))
  {
    match a
    case Initialize(t, valid) =>
      QueueInvNext(s, a);
      ResetLedger(s, t);
    case Timeout(t) => ResetLedger(s, t);
    case WakelockThreadExit(t) => ResetLedger(s, t);
  }

  lemma QueueRefInv(s: Sys, a: Action)
    requires RefInv(s) && Enabled(s, a) && (a.TakeChunk? || a.RemoveChunk? || a.Stop?)
    ensures RefInv(Next(s, a))
  {
    QueueInvNext(s, a);
    if a.RemoveChunk? { P.RemoveQueueInv(s.p.q); }
  }

  /** Every step keeps the books. */
  lemma RefInvNext(s: Sys, a: Action)
    requires RefInv(s) && Enabled(s, a) && Honest(s, a)
    ensures RefInv(Next(s, a))
  {
    match a
    case Create(_, _, _, _) => TokenRefInv(s, a);
    case MoveConstruct(_, _) => TokenRefInv(s, a);
    case MoveAssign(_, _) => TokenRefInv(s, a);
    case Destroy(_) => TokenRefInv(s, a);
    case BeginPost(_, _, _, _) => BeginRefInv(s, a);
    case SettlePost(_, _) => SettleRefInv(s, a);
    case DropExcess => CounterRefInv(s, a);
    case Ack(_) => CounterRefInv(s, a);
    case WriteReturns(_) => WriteRefInv(s, a);
    case TakeChunk(_) => QueueRefInv(s, a);
    case RemoveChunk => QueueRefInv(s, a);
    case Stop => QueueRefInv(s, a);
    case Timeout(_) => ResetRefInv(s, a);
    case WakelockThreadExit(_) => ResetRefInv(s, a);
    case Initialize(_, _) => ResetRefInv(s, a);
  }

  // ---------------------------------------------------------------- theorems over every run

  ghost predicate Run(states: seq<Sys>, acts: seq<Action>)
  {
    && |states| == |acts| + 1
    && states[0] == Init(states[0].now)
    && forall i :: 0 <= i < |acts| ==> StepAt(states, acts, i)
  }

  ghost predicate StepAt(states: seq<Sys>, acts: seq<Action>, i: nat)
    requires i < |acts| < |states|
  {
    Shaped(states[i]) && Enabled(states[i], acts[i]) && states[i + 1] == Next(states[i], acts[i])
  }

  lemma {:induction false} InvAt(states: seq<Sys>, acts: seq<Action>, i: nat)
    requires Run(states, acts) && i < |states|
    ensures Inv(states[i])
  {
    if i > 0 {
      InvAt(states, acts, i - 1);
      assert StepAt(states, acts, i - 1);
      QueueInvNext(states[i - 1], acts[i - 1]);
      LockInvNext(states[i - 1], acts[i - 1]);
      PostKeepsRunning(states[i - 1], acts[i - 1]);
    }
  }

  /** In every run, with any framework: the system wake lock is held exactly while the count is positive, and
      acquire and release strictly alternate. */
  lemma WakeLockHeldIffCounted(states: seq<Sys>, acts: seq<Action>, i: nat)
    requires Run(states, acts) && i < |states|
    ensures var l := states[i].l;
            && (W.Held(l) <==> l.refs > 0)
            && forall j :: 0 <= j < |l.calls| ==> l.calls[j] == if j % 2 == 0 then W.Acquire else W.Release
  {
    InvAt(states, acts, i);
  }

  ghost predicate HonestRun(states: seq<Sys>, acts: seq<Action>, i: nat)
    requires |acts| < |states| && i <= |acts|
  {
    forall j :: 0 <= j < i ==> Honest(states[j], acts[j])
  }

  lemma {:induction false} RefInvAt(states: seq<Sys>, acts: seq<Action>, i: nat)
    requires Run(states, acts) && i < |states| && HonestRun(states, acts, i)
    ensures RefInv(states[i])
  {
    if i == 0 {
      assert Fresh(states[0].tokens, states[0].l.reset) == {};
    } else {
      RefInvAt(states, acts, i - 1);
      assert StepAt(states, acts, i - 1);
      RefInvNext(states[i - 1], acts[i - 1]);
    }
  }

  /** Whatever timeouts, moves, drops and failed writes happen, also in the middle of a post, the count never exceeds
      what it answers for, so the lock is not leaked: with nothing owed it is free. The count is exact from an
      initialization on until a reset that finds wake events outstanding. */
  lemma ReferencesAreAccounted(states: seq<Sys>, acts: seq<Action>, i: nat)
    requires Run(states, acts) && i < |states| && HonestRun(states, acts, i)
    ensures var s := states[i];
            && P.Done(s.p.q) <= |P.Flat(s.p.q.entries)|
            && 0 <= s.l.refs <= Owed(s)
            && (s.clean ==> s.l.refs == Owed(s))
            && (Owed(s) == 0 ==> !W.Held(s.l))
            && (s.clean && Owed(s) > 0 ==> W.Held(s.l))
  {
    RefInvAt(states, acts, i);
  }

  /** The count is exact for what it answers for. */
  ghost predicate Exact(s: Sys) { P.Done(s.p.q) <= |P.Flat(s.p.q.entries)| && s.l.refs == Owed(s) }

  /** Only resets look at or change the verdict. */
  lemma VerdictIsInert(s: Sys, a: Action)
    requires Shaped(s) && Enabled(s, a) && !Resets(a)
    ensures Next(s.(clean := true), a) == Next(s, a).(clean := true)
  {
  }

  lemma ExactnessNext(s: Sys, a: Action)
    requires RefInv(s) && Enabled(s, a) && Honest(s, a) && !Resets(a) && Exact(s)
    ensures Exact(Next(s, a))
  {
    VerdictIsInert(s, a);
    RefInvNext(s.(clean := true), a);
  }

  lemma ExactnessAt(states: seq<Sys>, acts: seq<Action>, i: nat)
    requires Run(states, acts) && i < |acts| && HonestRun(states, acts, i + 1) && !Resets(acts[i]) && Exact(states[i])
    ensures Exact(states[i + 1])
  {
    RefInvAt(states, acts, i);
    assert StepAt(states, acts, i) && Honest(states[i], acts[i]);
    ExactnessNext(states[i], acts[i]);
  }

  /** A segment between resets: once the count is exact it stays exact through every honest step up to the next reset,
      whatever happened before. */
  lemma {:induction false} ExactnessSurvivesUntilReset(states: seq<Sys>, acts: seq<Action>, i: nat, j: nat)
    requires Run(states, acts) && i <= j < |states| && HonestRun(states, acts, j) && Exact(states[i])
    requires forall k :: i <= k < j ==> !Resets(acts[k])
    ensures Exact(states[j])
    decreases j
  {
    if i < j {
      ExactnessSurvivesUntilReset(states, acts, i, j - 1);
      ExactnessAt(states, acts, j - 1);
    }
  }

  /** Exactness is regained whenever nothing is owed. */
  lemma NothingOwedIsExact(states: seq<Sys>, acts: seq<Action>, i: nat)
    requires Run(states, acts) && i < |states| && HonestRun(states, acts, i)
    ensures P.Done(states[i].p.q) <= |P.Flat(states[i].p.q.entries)|
    ensures Owed(states[i]) == 0 ==> Exact(states[i])
  {
    RefInvAt(states, acts, i);
  }

  /** Conservation and order with posts taken apart: every event whose post has settled is written, pending or dropped,
      and the written ones followed by the backlog are the surviving ones in posting order. */
  lemma EventsAreConservedInOrder(states: seq<Sys>, acts: seq<Action>, i: nat)
    requires Run(states, acts) && i < |states|
    ensures P.Conserved(states[i].p)
  {
    InvAt(states, acts, i);
    P.InvConserves(states[i].p);
  }

  /** A post that writes to the FMQ does so while the worker is outside its unlocked write, and no write of the worker
      begins before the post has given up the queue's mutex. */
  lemma OneWriterAtATime(states: seq<Sys>, acts: seq<Action>, i: nat)
    requires Run(states, acts) && i < |acts| && acts[i].SettlePost?
    ensures states[i].posting.Charged?
    ensures P.DirectWrite(states[i].p.q, states[i].posting.events, acts[i].available, acts[i].writes) > 0 ==>
              states[i].p.q.phase.Parked? && states[i + 1].p.q.phase.Parked?
    ensures !states[i + 1].posting.NoPost? && i + 1 < |acts| ==> !acts[i + 1].TakeChunk?
  {
    InvAt(states, acts, i);
    assert StepAt(states, acts, i);
    if i + 1 < |acts| { assert StepAt(states, acts, i + 1); }
  }

  /** The count covers every locked token exactly when it is exact for the fresh ones and no locked token is older
      than the last reset; while it is exact, the latter alone decides. */
  lemma EveryLockedTokenIsCountedIff(states: seq<Sys>, acts: seq<Action>, i: nat)
    requires Run(states, acts) && i < |states| && HonestRun(states, acts, i)
    ensures var s := states[i];
            && P.Done(s.p.q) <= |P.Flat(s.p.q.entries)|
            && (s.l.refs == FullyOwed(s) <==> s.l.refs == Owed(s) && Stale(s.tokens, s.l.reset) == {})
            && (s.clean ==> (s.l.refs == FullyOwed(s) <==> Stale(s.tokens, s.l.reset) == {}))
  {
    RefInvAt(states, acts, i);
    FreshAndStale(states[i].tokens, states[i].l.reset);
  }

  /** A timeout or worker-exit reset leaves the count exact for what it answers for if and only if it finds no wake
      event outstanding, and equal to all locked tokens and wake events if and only if no token is locked either. */
  lemma ResetIsExactIffNothingOutstanding(states: seq<Sys>, acts: seq<Action>, i: nat)
    requires Run(states, acts) && i < |acts| && HonestRun(states, acts, i)
    requires (acts[i].Timeout? && acts[i].when > states[i].now)
             || (acts[i].WakelockThreadExit? && acts[i].exit > states[i].now)
    ensures Shaped(states[i]) && Shaped(states[i + 1])
    ensures states[i + 1].l.refs == Owed(states[i + 1]) <==> NoWakeEventOutstanding(states[i])
    ensures states[i + 1].l.refs == FullyOwed(states[i + 1]) <==>
            NoWakeEventOutstanding(states[i]) && LockedTokens(states[i].tokens) == {}
  {
    RefInvAt(states, acts, i);
    assert StepAt(states, acts, i);
    ResetLedger(states[i], if acts[i].Timeout? then acts[i].when else acts[i].exit);
  }

  /** What a step asks to take off the count. */
  function Debit(s: Sys, a: Action): nat
    requires Enabled(s, a)
  {
    match a
    case Ack(n) => n
    case WriteReturns(ok) => if ok then 0 else s.p.q.phase.wakes
    case DropExcess => s.posting.wakes
    case Destroy(id) => if id in Fresh(s.tokens, s.l.reset) then 1 else 0
    case MoveAssign(to, from) => if to != from && to in Fresh(s.tokens, s.l.reset) then 1 else 0
    case _ => 0
  }

  /** What a step asks for is part of what is owed. */
  lemma DebitIsOwed(s: Sys, a: Action)
    requires RefInv(s) && Enabled(s, a) && Honest(s, a)
    ensures Debit(s, a) <= Owed(s)
  {
    if a.WriteReturns? {
      P.WriteReturnsInv(s.p, a.ok);
      P.CountWakeSplit(P.Backlog(s.p.q), s.p.q.phase.n);
    }
    if a.Destroy? || a.MoveAssign? {
      assert Debit(s, a) == 1 ==> Fresh(s.tokens, s.l.reset) != {};
    }
  }

  /** A step that neither increments nor resets takes off what it asks for, as far as the count allows. */
  lemma DebitIsTaken(s: Sys, a: Action)
    requires Shaped(s) && Enabled(s, a) && !Increments(a) && !Resets(a)
    ensures Debit(s, a) <= s.l.refs ==> Next(s, a).l.refs == s.l.refs - Debit(s, a)
  {
  }

  /** While the count is exact the clamp in the decrement never takes effect: acknowledgements, failed writes,
      overflow drops and tokens each get exactly what they ask for. */
  lemma ClampNeverBites(states: seq<Sys>, acts: seq<Action>, i: nat)
    requires Run(states, acts) && i < |acts| && HonestRun(states, acts, i + 1) && states[i].clean
    ensures Enabled(states[i], acts[i]) && Debit(states[i], acts[i]) <= states[i].l.refs
    ensures !Increments(acts[i]) && !Resets(acts[i]) ==>
              states[i + 1].l.refs == states[i].l.refs - Debit(states[i], acts[i])
  {
    RefInvAt(states, acts, i);
    assert StepAt(states, acts, i) && Honest(states[i], acts[i]);
    DebitIsOwed(states[i], acts[i]);
    if !Increments(acts[i]) && !Resets(acts[i]) { DebitIsTaken(states[i], acts[i]); }
  }

  // ---------------------------------------------------------------- runs in which the count falls short

  lemma WakesOfOne(e: P.Event)
    ensures P.CountWake([e]) == (if e.wake then 1 else 0) && P.CountWake([]) == 0
  {
    assert [e][1..] == [];
  }

  /** Some honest run ends in `s`. */
  ghost predicate Reachable(s: Sys)
  {
    exists states, acts :: Run(states, acts) && HonestRun(states, acts, |acts|) && states[|acts|] == s
  }

  lemma InitReachable(now: int)
    ensures Reachable(Init(now))
  {
    assert Run([Init(now)], []) && HonestRun([Init(now)], [], 0);
  }

  lemma NextReachable(s: Sys, a: Action)
    requires Reachable(s) && Shaped(s) && Enabled(s, a) && Honest(s, a)
    ensures Reachable(Next(s, a))
  {
    var states, acts :| Run(states, acts) && HonestRun(states, acts, |acts|) && states[|acts|] == s;
    var states', acts' := states + [Next(s, a)], acts + [a];
    forall i | 0 <= i < |acts'| ensures StepAt(states', acts', i) && Honest(states'[i], acts'[i]) {
      if i < |acts| { assert StepAt(states, acts, i) && Honest(states[i], acts[i]); }
    }
    assert Run(states', acts') && HonestRun(states', acts', |acts'|);
  }

  /** The system lock is free although a token locked since the last reset is alive. */
  predicate LockStolen(s: Sys)
  {
    !W.Held(s.l) && Fresh(s.tokens, s.l.reset) != {}
  }

  lemma Started() returns (s: Sys)
    ensures Reachable(s)
    ensures s == Sys(P.Sys(P.Queue(true, [], 0, P.Parked), P.History([], [], [])),
                     W.Lock(0, 0, 1, []), map[], NoPost, 0, true, 1)
  {
    InitReachable(0);
    NextReachable(Init(0), Initialize(1, true));
    s := Next(Init(0), Initialize(1, true));
  }

  /** A token was created, and its post of one wake event has been charged. */
  lemma ChargedOne(e: P.Event) returns (s: Sys)
    requires e.wake
    ensures Reachable(s) && Shaped(s) && s.p.q == P.Queue(true, [], 0, P.Parked) && s.posting == Charged([e])
    ensures s.unacked == 0 && s.l == W.Lock(2, 3, 1, [W.Acquire]) && s.tokens == map[1 := W.Scoped(true, 2)]
            && s.now == 3
  {
    WakesOfOne(e);
    s := Started();
    NextReachable(s, Create(1, true, true, 2));
    s := Next(s, Create(1, true, true, 2));
    NextReachable(s, BeginPost(1, [e], true, 3));
    s := Next(s, BeginPost(1, [e], true, 3));
  }

  /** The event was written at once. */
  lemma WrittenUnacknowledged() returns (s: Sys)
    ensures Reachable(s) && Shaped(s) && s.p.q == P.Queue(true, [], 0, P.Parked) && s.posting.NoPost? && s.unacked == 1
    ensures s.l == W.Lock(2, 3, 1, [W.Acquire]) && s.tokens == map[1 := W.Scoped(true, 2)] && s.now == 3
  {
    var e := P.Event(0, true);
    WakesOfOne(e);
    assert [e][..1] == [e] && [e][1..] == [];
    s := ChargedOne(e);
    NextReachable(s, SettlePost(1, true));
    s := Next(s, SettlePost(1, true));
  }

  /** Then the token was destroyed with its post, and a timeout came before the acknowledgement. */
  lemma TimedOutUnacknowledged() returns (s: Sys)
    ensures Reachable(s) && Shaped(s) && s.p.q.run && s.posting.NoPost? && s.tokens == map[] && s.unacked == 1
    ensures s.l == W.Lock(0, 3, 1_000_000_004, [W.Acquire, W.Release]) && s.now == 1_000_000_004
  {
    s := WrittenUnacknowledged();
    NextReachable(s, Destroy(1));
    s := Next(s, Destroy(1));
    assert s.tokens == map[] && s.l.refs == 1;
    NextReachable(s, Timeout(1_000_000_004));
    s := Next(s, Timeout(1_000_000_004));
  }

  /** The count is not exact after a timeout: acknowledging an event written before it takes away the reference of
      a token created after it, and the system lock is released while that token is alive and locked. */
  lemma TimeoutCanStealAReference() returns (s: Sys)
    ensures Reachable(s) && LockStolen(s)
  {
    s := TimedOutUnacknowledged();
    var create := Create(2, true, true, s.now + 1);
    NextReachable(s, create);
    s := Next(s, create);
    NextReachable(s, Ack(1));
    s := Next(s, Ack(1));
    assert 2 in Fresh(s.tokens, s.l.reset);
  }

  lemma {:induction false} NoWakes(es: seq<P.Event>)
    requires forall i :: 0 <= i < |es| ==> !es[i].wake
    ensures P.CountWake(es) == 0
    decreases |es|
  {
    if es != [] { NoWakes(es[1..]); }
  }

  /** The queue holds as many events as it may, none of them a wake event. */
  lemma FullOfOrdinaryEvents(ordinary: seq<P.Event>) returns (s: Sys)
    requires |ordinary| == P.MAX_PENDING && forall i :: 0 <= i < P.MAX_PENDING ==> !ordinary[i].wake
    ensures Reachable(s) && Shaped(s) && s.posting.NoPost? && s.unacked == 0 && s.now == 1
    ensures s.p.q == P.Queue(true, [P.Entry(ordinary, 0)], P.MAX_PENDING, P.Parked)
    ensures s.l == W.Lock(0, 0, 1, []) && s.tokens == map[0 := W.Scoped(false, 0)]
  {
    NoWakes(ordinary);
    s := Started();
    NextReachable(s, Create(0, false, false, 1));
    s := Next(s, Create(0, false, false, 1));
    NextReachable(s, BeginPost(0, ordinary, false, 1));
    s := Next(s, BeginPost(0, ordinary, false, 1));
    assert s.posting == Charged(ordinary) && s.l == W.Lock(0, 0, 1, []);
    assert ordinary[0..] == ordinary && ordinary[..0] == [];
    NextReachable(s, SettlePost(0, true));
    s := Next(s, SettlePost(0, true));
    assert [P.Entry(ordinary, 0)][1..] == [];
  }

  /** A wake event has been charged, and its post has not gone on, for more than a second. */
  lemma StalledPost(ordinary: seq<P.Event>, e: P.Event) returns (s: Sys)
    requires |ordinary| == P.MAX_PENDING && forall i :: 0 <= i < P.MAX_PENDING ==> !ordinary[i].wake
    requires e.wake
    ensures Reachable(s) && Shaped(s) && s.posting == Charged([e]) && s.unacked == 0 && s.now == 3
    ensures s.p.q == P.Queue(true, [P.Entry(ordinary, 0)], P.MAX_PENDING, P.Parked)
    ensures s.l == W.Lock(2, 3, 1, [W.Acquire])
    ensures s.tokens == map[0 := W.Scoped(false, 0), 1 := W.Scoped(true, 2)]
  {
    WakesOfOne(e);
    s := FullOfOrdinaryEvents(ordinary);
    NextReachable(s, Create(1, true, true, 2));
    s := Next(s, Create(1, true, true, 2));
    NextReachable(s, BeginPost(1, [e], true, 3));
    s := Next(s, BeginPost(1, [e], true, 3));
  }

  /** A post's drop steals in the same way: the timeout comes between the charge and the drop and finds nothing
      queued or unacknowledged, yet the drop takes the reference of a token created after it. */
  lemma DropCanStealAReference() returns (before: Sys, s: Sys)
    ensures Reachable(before) && Shaped(before) && Enabled(before, Timeout(1_000_000_004)) && before.now < 1_000_000_004
    ensures BacklogWakes(before.p.q) == 0 && before.unacked == 0 && PostWakes(before.posting) == 1
    ensures Reachable(s) && LockStolen(s)
  {
    var ordinary := seq(P.MAX_PENDING, _ => P.Event(0, false));
    var e := P.Event(0, true);
    WakesOfOne(e);
    before := StalledPost(ordinary, e);
    NoWakes(ordinary);
    assert [P.Entry(ordinary, 0)][1..] == [];
    assert P.Backlog(before.p.q) == ordinary;
    NextReachable(before, Timeout(1_000_000_004));
    s := Next(before, Timeout(1_000_000_004));
    s := StolenByDrop(s, ordinary, e);
  }

  lemma StolenByDrop(before: Sys, ordinary: seq<P.Event>, e: P.Event) returns (s: Sys)
    requires Reachable(before) && Shaped(before) && before.posting == Charged([e]) && e.wake && 2 !in before.tokens
    requires |ordinary| == P.MAX_PENDING && before.p.q == P.Queue(true, [P.Entry(ordinary, 0)], P.MAX_PENDING, P.Parked)
    requires before.l.refs == 0 && before.l.reset == before.now
    ensures Reachable(s) && LockStolen(s)
  {
    WakesOfOne(e);
    assert [e][0..] == [e] && [e][..0] == [];
    var create := Create(2, true, true, before.now);
    NextReachable(before, create);
    s := Next(before, create);
    NextReachable(s, SettlePost(0, false));
    s := Next(s, SettlePost(0, false));
    assert s.posting == Excess(1) && s.l.refs == 1;
    NextReachable(s, DropExcess);
    s := Next(s, DropExcess);
    assert 2 in Fresh(s.tokens, s.l.reset);
  }
}
