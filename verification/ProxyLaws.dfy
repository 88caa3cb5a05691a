/**
 What the proxy does with an event, a post, a token and its clock, stated by the limits of the source: when an event is
 written, queued or dropped, when a post or a token is granted its references, and when a timeout may come.
 */
module ProxyLaws {
  import P = PendingEvents
  import W = WakeLock
  import H = HalProxy

  // ---------------------------------------------------------------- counting, writing and queueing

  function WakePositions(es: seq<P.Event>): set<nat> { set i: nat | i < |es| && es[i].wake }

  /** The recursive count is the number of wake events. */
  lemma {:induction false} CountsWakeEvents(es: seq<P.Event>)
    ensures P.CountWake(es) == |WakePositions(es)|
    decreases |es|
  {
    if es == [] {
      assert WakePositions(es) == {};
    } else {
      var n := |es| - 1;
      CountsWakeEvents(es[..n]);
      assert es == es[..n] + [es[n]];
      P.CountWakeAppend(es[..n], [es[n]]);
      assert [es[n]][1..] == [];
      assert WakePositions(es) == WakePositions(es[..n]) + if es[n].wake then {n} else {};
    }
  }

  /** A post writes as much as fits, but only past an empty queue and if the FMQ takes it. */
  lemma WritesWhatFits(q: P.Queue, events: seq<P.Event>, available: nat, writes: bool)
    ensures var n := P.DirectWrite(q, events, available, writes);
            && n <= |events| && n <= available
            && (if q.entries == [] && writes then n == |events| || n == available else n == 0)
  {
  }

  /** What is left is queued whole, behind what is there, exactly as long as the queue stays within 100000 events. */
  lemma QueuesUpToTheLimit(q: P.Queue, events: seq<P.Event>, n: nat)
    requires P.QueueInv(q) && n <= |events|
    ensures var q' := P.Offer(q, events, P.CountWake(events), n);
            && (|P.Flat(q.entries)| + |events| - n <= 100_000 ==> P.Flat(q'.entries) == P.Flat(q.entries) + events[n..])
            && (|P.Flat(q.entries)| + |events| - n > 100_000 ==> q' == q)
  {
    P.PostQueueInv(q, events, n);
  }

  /** A chunk is the first events of the front entry, as many as there are or as the FMQ can hold. */
  lemma ChunksAreFull(q: P.Queue, quantum: nat)
    requires P.QueueInv(q) && q.entries != [] && quantum > 0
    ensures var q' := P.Take(q, quantum);
            && q'.phase.Writing? && 0 < q'.phase.n <= quantum && q'.phase.n <= |q.entries[0].events|
            && (q'.phase.n == quantum || q'.phase.n == |q.entries[0].events|)
            && q' == q.(phase := q'.phase)
  {
    assert P.EntryInv(q.entries[0]);
  }

  /** Over every run, what becomes of a post: refused, all its events are dropped; admitted, the first ones are written
      and the rest is pending, or dropped if the queue would exceed 100000 events. Earlier events are not affected. */
  lemma PostsAreTreatedExactly(states: seq<P.Sys>, acts: seq<P.Action>, i: nat)
    requires P.Run(states, acts) && i < |acts| && acts[i].Post?
    ensures var (s, s', a) := (states[i], states[i + 1], acts[i]);
            && s'.h.posted == s.h.posted + a.events
            && (!a.admitted ==> s'.q == s.q && s'.h.fate == s.h.fate + P.Same(|a.events|, P.Dropped))
            && (a.admitted ==>
                  var n := P.DirectWrite(s.q, a.events, a.available, a.writes);
                  var fits := |P.Flat(s.q.entries)| + |a.events| - n <= 100_000;
                  && n <= |a.events|
                  && s'.h.fate == s.h.fate + P.Same(n, P.Written)
                                  + P.Same(|a.events| - n, if fits then P.Pending else P.Dropped)
                  && P.Flat(s'.q.entries) == P.Flat(s.q.entries) + if fits then a.events[n..] else [])
  {
    P.InvAt(states, acts, i);
    assert P.StepAt(states, acts, i);
    var (s, a) := (states[i], acts[i]);
    if a.admitted { QueuesUpToTheLimit(s.q, a.events, P.DirectWrite(s.q, a.events, a.available, a.writes)); }
  }

  /** An event once accepted is lost only with a chunk whose write fails. */
  lemma AcceptedEventsAreLostOnlyByFailedWrites(states: seq<P.Sys>, acts: seq<P.Action>, i: nat, k: nat)
    requires P.Run(states, acts) && i < |acts| && !acts[i].Restart?
    requires k < |states[i].h.fate| && states[i].h.fate[k] != P.Dropped
    ensures k < |states[i + 1].h.fate|
    ensures states[i + 1].h.fate[k] == P.Dropped ==>
              acts[i] == P.WriteReturns(false) && states[i].h.fate[k] == P.Pending
  {
    P.InvAt(states, acts, i);
    assert P.StepAt(states, acts, i);
    var (s, a) := (states[i], acts[i]);
    if a.WriteReturns? { P.MarkKeepsOthers(s.h.fate, s.q.phase.n, if a.ok then P.Written else P.Dropped); }
  }

  // ---------------------------------------------------------------- posts and tokens

  /** A post is charged exactly when it has events, the proxy runs, and its wake events and its token go together: none
      and an unlocked one, or some, a locked one and a system lock that is held or can be acquired. */
  lemma PostsAreAdmittedExactly(states: seq<H.Sys>, acts: seq<H.Action>, i: nat)
    requires H.Run(states, acts) && i < |acts| && acts[i].BeginPost? && states[i].posting.NoPost?
    ensures acts[i].with in states[i].tokens
    ensures var (s, s', a) := (states[i], states[i + 1], acts[i]);
            var locked := s.tokens[a.with].locked;
            var wakes := |WakePositions(a.events)|;
            if a.events != [] && s.p.q.run
               && (if locked then wakes > 0 && (s.l.refs > 0 || a.canAcquire) else wakes == 0)
            then
              && s'.posting == H.Charged(a.events) && s'.p == s.p
              && s'.l.refs == s.l.refs + wakes && (locked ==> s'.l.start == a.at)
            else s'.posting == H.NoPost && s'.l == s.l && s'.p.q == s.p.q
  {
    CountsWakeEvents(acts[i].events);
    assert H.StepAt(states, acts, i);
  }

  /** Settling a post writes, queues or refuses its events by the same limits; only a refusal leaves references to be
      given back, one for each wake event it refuses. */
  lemma PostsSettleExactly(states: seq<H.Sys>, acts: seq<H.Action>, i: nat)
    requires H.Run(states, acts) && i < |acts| && acts[i].SettlePost?
    ensures states[i].posting.Charged?
    ensures var (s, s', a) := (states[i], states[i + 1], acts[i]);
            var events := s.posting.events;
            var n := P.DirectWrite(s.p.q, events, a.available, a.writes);
            && n <= |events| && s'.l == s.l && s'.unacked == s.unacked + |WakePositions(events[..n])|
            && s'.p.h.written == s.p.h.written + events[..n]
            && (if |P.Flat(s.p.q.entries)| + |events| - n <= 100_000
                then s'.posting == H.NoPost && P.Flat(s'.p.q.entries) == P.Flat(s.p.q.entries) + events[n..]
                else s'.posting == H.Excess(|WakePositions(events[n..])|) && s'.p.q == s.p.q)
  {
    H.InvAt(states, acts, i);
    assert H.StepAt(states, acts, i);
    var (s, a) := (states[i], acts[i]);
    var events := s.posting.events;
    var n := P.DirectWrite(s.p.q, events, a.available, a.writes);
    QueuesUpToTheLimit(s.p.q, events, n);
    CountsWakeEvents(events[..n]);
    CountsWakeEvents(events[n..]);
  }

  /** A token asked to lock is locked exactly when the proxy runs and the system lock is held or can be acquired. */
  lemma TokensAreGrantedExactly(states: seq<H.Sys>, acts: seq<H.Action>, i: nat)
    requires H.Run(states, acts) && i < |acts| && acts[i].Create?
    ensures var (s, s', a) := (states[i], states[i + 1], acts[i]);
            && a.id !in s.tokens && a.id in s'.tokens && s'.tokens - {a.id} == s.tokens
            && (s'.tokens[a.id].locked <==> a.lock && s.p.q.run && (s.l.refs > 0 || a.acquires))
            && (if s'.tokens[a.id].locked
                then s'.l.refs == s.l.refs + 1 && s'.tokens[a.id].createdAt == a.t == s'.l.start
                else s'.l == s.l)
  {
    assert H.StepAt(states, acts, i);
  }

  /** Posts pass from a successful initialization up to the next stop, and at no other time. */
  lemma RunFlagExactly(states: seq<H.Sys>, acts: seq<H.Action>, i: nat)
    requires H.Run(states, acts) && i < |acts|
    ensures states[i + 1].p.q.run ==
            if acts[i].Initialize? then acts[i].valid else states[i].p.q.run && !acts[i].Stop?
  {
    assert H.StepAt(states, acts, i);
  }

  // ---------------------------------------------------------------- the timeout

  /** When a step that raises the count did so. */
  function IncrementTime(a: H.Action): int { if a.Create? then a.t else if a.BeginPost? then a.at else 0 }

  lemma StartNext(s: H.Sys, a: H.Action)
    requires H.Shaped(s) && H.Enabled(s, a) && W.Inv(s.l)
    ensures var s' := H.Next(s, a);
            && (s'.l.refs > s.l.refs ==> (a.Create? || a.BeginPost?) && s'.l.start == IncrementTime(a) >= s.now)
            && (s'.l.refs <= s.l.refs ==> s'.l.start == s.l.start)
            && s'.now >= s.now && (s.l.start <= s.now ==> s'.l.start <= s'.now)
  {
  }

  lemma {:induction false} StartAt(states: seq<H.Sys>, acts: seq<H.Action>, j: nat, i: nat)
    requires H.Run(states, acts) && j < i < |states| && states[j + 1].l.refs > states[j].l.refs
    ensures (acts[j].Create? || acts[j].BeginPost?) && states[i].l.start >= IncrementTime(acts[j])
    ensures states[i].l.start <= states[i].now
    decreases i
  {
    StartNow(states, acts, i - 1);
    H.InvAt(states, acts, i - 1);
    assert H.StepAt(states, acts, i - 1);
    StartNext(states[i - 1], acts[i - 1]);
    if j < i - 1 { StartAt(states, acts, j, i - 1); }
  }

  lemma {:induction false} StartNow(states: seq<H.Sys>, acts: seq<H.Action>, i: nat)
    requires H.Run(states, acts) && i < |states|
    ensures states[i].l.start <= states[i].now
    decreases i
  {
    if i > 0 {
      StartNow(states, acts, i - 1);
      H.InvAt(states, acts, i - 1);
      assert H.StepAt(states, acts, i - 1);
      StartNext(states[i - 1], acts[i - 1]);
    }
  }

  /** A timeout comes only while references are held, and more than a second after every step that raised the count. */
  lemma TimeoutsWaitASecond(states: seq<H.Sys>, acts: seq<H.Action>, j: nat, i: nat)
    requires H.Run(states, acts) && j < i < |acts| && acts[i].Timeout? && states[j + 1].l.refs > states[j].l.refs
    ensures states[i].l.refs > 0 && acts[i].when > IncrementTime(acts[j]) + 1_000_000_000
  {
    StartAt(states, acts, j, i);
    assert H.StepAt(states, acts, i);
  }
}
