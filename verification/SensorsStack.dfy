/**
 The sub-HAL and the proxy together: the poll thread hands a batch to the proxy while it holds the sub-HAL's mutex, and
 the proxy initializes the sub-HAL between stopping its threads and letting posts through again. An event read in one
 framework session must not reach the FMQ of the next.
 */
module SensorsStack {
  import opened Common
  import S = SubHalSession
  import H = HalProxy
  import P = PendingEvents

  /** The batch being handed on under the sub-HAL's mutex, and how many sub-HAL sessions had begun when its poll did. */
  datatype Handing = Handing(began: nat, events: seq<S.Event>, posted: bool)

  datatype Origin = Origin(began: nat, event: S.Event)

  /** `ready`: the sub-HAL has been initialized since the proxy's threads were stopped. `since`: the sub-HAL sessions
      begun when the proxy's session started. `origins`: where each event of the proxy's history came from. */
  datatype Sys = Sys(sub: S.Sys, proxy: H.Sys, handing: Option<Handing>, ready: bool, since: nat, origins: seq<Origin>)

  datatype Action =
    | Sub(sub: S.Action)
    | Proxy(proxy: H.Action)
    | Post(with: nat, canAcquire: bool, at: int)
    | HandedOn

  function Init(ready: bool, sensors: map<int, bool>, canSwitchMode: bool, now: int): Sys
  {
    Sys(S.Init(ready, sensors, canSwitchMode), H.Init(now), None, false, 0, [])
  }

  /** An event as the proxy sees it: its payload, and whether its sensor is a wake-up sensor. */
  function Convert(sensors: map<int, bool>, e: S.Event): P.Event
  {
    P.Event(e.payload, e.handle in sensors && sensors[e.handle])
  }

  function ConvertAll(sensors: map<int, bool>, es: seq<S.Event>): seq<P.Event>
  {
    seq(|es|, i requires 0 <= i < |es| => Convert(sensors, es[i]))
  }

  function From(began: nat, es: seq<S.Event>): seq<Origin>
  {
    seq(|es|, i requires 0 <= i < |es| => Origin(began, es[i]))
  }

  function Begin(s: Sys, a: Action): H.Action
    requires a.Post? && s.handing.Some?
  {
    H.BeginPost(a.with, ConvertAll(s.sub.h.sensors, s.handing.value.events), a.canAcquire, a.at)
  }

  /** Whatever needs the sub-HAL's mutex waits for the batch being handed on. The sub-HAL is initialized only while the
      proxy's threads are stopped, and posts pass again only after that succeeded. */
  predicate Enabled(s: Sys, a: Action)
  {
    match a
    case Sub(b) => s.handing.None? && S.Enabled(s.sub, b) && (b.Initializing? ==> !s.proxy.p.q.run)
    case Proxy(b) => !b.BeginPost? && H.Enabled(s.proxy, b) && (b.Initialize? && b.valid ==> s.ready)
    case Post(_, _, _) => s.handing.Some? && !s.handing.value.posted && H.Enabled(s.proxy, Begin(s, a))
    case HandedOn => s.handing.Some? && s.handing.value.posted && s.proxy.posting.NoPost?
  }

  function SubNext(s: Sys, b: S.Action): Sys
    requires S.Enabled(s.sub, b)
  {
    var s' := s.(sub := S.Next(s.sub, b));
    if b.PollReturns? then
      var d := S.Deliver(s.sub.h, s.sub.poll.value.0, b.batch);
      s'.(handing := if d.Some? then Some(Handing(s.sub.poll.value.1, d.value.events, false)) else s.handing)
    else if b.Initializing? then s'.(ready := S.Initialize(s.sub.h, b.callback, b.answers).1.Ok?)
    else s'
  }

  function ProxyNext(s: Sys, b: H.Action): Sys
    requires H.Shaped(s.proxy) && H.Enabled(s.proxy, b)
  {
    var s' := s.(proxy := H.Next(s.proxy, b));
    if b.Initialize? then s'.(ready := false, since := s.sub.sessions, origins := [])
    else if b.Stop? then s'.(ready := false)
    else if b.SettlePost? && s.handing.Some? then
      s'.(origins := s.origins + From(s.handing.value.began, s.handing.value.events))
    else s'
  }

  function PostNext(s: Sys, a: Action): Sys
    requires H.Shaped(s.proxy) && a.Post? && s.handing.Some? && H.Enabled(s.proxy, Begin(s, a))
  {
    var proxy := H.Next(s.proxy, Begin(s, a));
    s.(proxy := proxy,
       handing := Some(s.handing.value.(posted := true)),
       origins := if proxy.posting.Charged? then s.origins
                  else s.origins + From(s.handing.value.began, s.handing.value.events))
  }

  function Next(s: Sys, a: Action): Sys
    requires H.Shaped(s.proxy) && Enabled(s, a)
  {
    match a
    case Sub(b) => SubNext(s, b)
    case Proxy(b) => ProxyNext(s, b)
    case Post(_, _, _) => PostNext(s, a)
    case HandedOn => s.(handing := None)
  }

  // ---------------------------------------------------------------- where the events of a session come from

  /** The same session number, as far as a 64-bit counter can tell. */
  predicate SameSession(began: nat, now: nat) { began <= now && (now - began) % S.EPOCHS == 0 }

  /** Every event of the history has its origin, and every one that was not dropped is from the session `since`. */
  ghost predicate Sourced(h: P.History, origins: seq<Origin>, sensors: map<int, bool>, since: nat)
  {
    && |h.posted| == |h.fate| == |origins|
    && (forall k :: 0 <= k < |origins| ==> h.posted[k] == Convert(sensors, origins[k].event))
    && (forall k :: 0 <= k < |origins| && h.fate[k] != P.Dropped ==> SameSession(origins[k].began, since))
  }

  lemma SourcedAppend(h: P.History, h': P.History, origins: seq<Origin>, sensors: map<int, bool>, since: nat,
                      began: nat, es: seq<S.Event>, fates: seq<P.Fate>)
    requires Sourced(h, origins, sensors, since) && |fates| == |es|
    requires h'.posted == h.posted + ConvertAll(sensors, es) && h'.fate == h.fate + fates
    requires (forall i :: 0 <= i < |fates| ==> fates[i] == P.Dropped) || SameSession(began, since)
    ensures Sourced(h', origins + From(began, es), sensors, since)
  {
  }

  lemma SourcedMark(h: P.History, h': P.History, origins: seq<Origin>, sensors: map<int, bool>, since: nat, n: nat,
                    f: P.Fate)
    requires Sourced(h, origins, sensors, since) && P.Ordered(h.fate) && f != P.Pending
    requires h'.posted == h.posted && h'.fate == P.Mark(h.fate, n, f)
    ensures Sourced(h', origins, sensors, since)
  {
    P.MarkKeepsOthers(h.fate, n, f);
  }

  // ---------------------------------------------------------------- invariant

  ghost predicate HandingInv(s: Sys)
  {
    && (s.handing.Some? ==> SameSession(s.handing.value.began, s.sub.sessions))
    && (s.handing.None? || !s.handing.value.posted ==> s.proxy.posting.NoPost?)
    && (s.proxy.posting.Charged? ==>
          s.handing.Some? && s.proxy.posting.events == ConvertAll(s.sub.h.sensors, s.handing.value.events))
  }

  ghost predicate SessionInv(s: Sys)
  {
    && s.since <= s.sub.sessions
    && (s.proxy.p.q.run ==> s.since == s.sub.sessions)
    && (s.ready || s.proxy.p.q.run ==> s.sub.h.callback.Some?)
  }

  ghost predicate Inv(s: Sys)
  {
    && S.Inv(s.sub) && H.Inv(s.proxy) && HandingInv(s) && SessionInv(s)
    && Sourced(s.proxy.p.h, s.origins, s.sub.h.sensors, s.since)
  }

  lemma SubKeeps(s: S.Sys, b: S.Action)
    requires S.Enabled(s, b)
    ensures var s' := S.Next(s, b);
            && s'.h.sensors == s.h.sensors
            && (!b.Initializing? ==> s'.sessions == s.sessions && s'.h.callback == s.h.callback)
            && (b.Initializing? ==> s'.sessions >= s.sessions)
            && (b.Initializing? && S.Initialize(s.h, b.callback, b.answers).1.Ok? ==> s'.h.callback.Some?)
  {
  }

  /** A batch is handed on only from a poll of the current session. */
  lemma DeliveredInSession(s: S.Sys, batch: seq<S.Event>)
    requires S.Inv(s) && s.poll.Some? && S.Deliver(s.h, s.poll.value.0, batch).Some?
    ensures SameSession(s.poll.value.1, s.sessions)
  {
    var (began, now) := (s.poll.value.1, s.sessions);
    assert now == began + (now - began);
  }

  lemma SubInv(s: Sys, b: S.Action)
    requires Inv(s) && Enabled(s, Sub(b))
    ensures Inv(SubNext(s, b))
  {
    S.InvNext(s.sub, b);
    SubKeeps(s.sub, b);
    if b.PollReturns? && S.Deliver(s.sub.h, s.sub.poll.value.0, b.batch).Some? { DeliveredInSession(s.sub, b.batch); }
  }

  lemma ProxyKeepsInv(p: H.Sys, b: H.Action)
    requires H.Inv(p) && H.Enabled(p, b)
    ensures H.Inv(H.Next(p, b))
  {
    H.QueueInvNext(p, b);
    H.LockInvNext(p, b);
    H.PostKeepsRunning(p, b);
  }

  /** What a proxy action other than the start of a post does to the history, the post and the run flag. */
  ghost predicate ProxyEffect(p: H.Sys, b: H.Action, p': H.Sys)
    requires P.Shaped(p.p)
  {
    match b
    case SettlePost(available, writes) =>
      && p.posting.Charged? && !p'.posting.Charged? && p'.p.q.run == p.p.q.run
      && var n := P.DirectWrite(p.p.q, p.posting.events, available, writes);
      && p'.p.h.posted == p.p.h.posted + p.posting.events
      && p'.p.h.fate == p.p.h.fate + P.PostFates(p.p.q, p.posting.events, n)
    case WriteReturns(ok) =>
      && p.p.q.phase.Writing? && p'.posting == p.posting && p'.p.q.run == p.p.q.run && p'.p.h.posted == p.p.h.posted
      && p'.p.h.fate == P.Mark(p.p.h.fate, p.p.q.phase.n, if ok then P.Written else P.Dropped)
    case Initialize(_, valid) =>
      p.posting.NoPost? && p'.posting.NoPost? && p'.p.q.run == valid && p'.p.h == P.History([], [], [])
    case Stop => p'.posting == p.posting && !p'.p.q.run && p'.p.h == p.p.h
    case DropExcess => p'.posting.NoPost? && p'.p == p.p
    case _ => p'.posting == p.posting && p'.p.q.run == p.p.q.run && p'.p.h == p.p.h
  }

  lemma ProxyActs(p: H.Sys, b: H.Action)
    requires H.Shaped(p) && H.Enabled(p, b) && !b.BeginPost?
    ensures ProxyEffect(p, b, H.Next(p, b))
  {
  }

  lemma ProxyInv(s: Sys, b: H.Action)
    requires Inv(s) && Enabled(s, Proxy(b))
    ensures Inv(ProxyNext(s, b))
  {
    ProxyKeepsInv(s.proxy, b);
    ProxyActs(s.proxy, b);
    ProxySourced(s, b, ProxyNext(s, b));
    ProxySessions(s, b, ProxyNext(s, b));
  }

  lemma ProxySessions(s: Sys, b: H.Action, s': Sys)
    requires P.Shaped(s.proxy.p) && HandingInv(s) && SessionInv(s)
    requires ProxyEffect(s.proxy, b, s'.proxy) && s'.sub == s.sub && s'.handing == s.handing
    requires b.SettlePost? ==> s.handing.Some? && s.handing.value.posted
    requires b.DropExcess? ==> s'.proxy.posting.NoPost?
    requires b.Initialize? && b.valid ==> s.ready
    requires s'.since == (if b.Initialize? then s.sub.sessions else s.since) && (s'.ready ==> s.ready)
    ensures HandingInv(s') && SessionInv(s')
  {
  }

  lemma ProxySourced(s: Sys, b: H.Action, s': Sys)
    requires P.Shaped(s.proxy.p) && HandingInv(s) && SessionInv(s) && P.Ordered(s.proxy.p.h.fate)
    requires s.proxy.posting.Charged? ==> s.proxy.p.q.run
    requires Sourced(s.proxy.p.h, s.origins, s.sub.h.sensors, s.since)
    requires ProxyEffect(s.proxy, b, s'.proxy) && s'.sub == s.sub && s'.handing == s.handing
    requires s'.since == (if b.Initialize? then s.sub.sessions else s.since)
    requires s'.origins == (if b.Initialize? then []
                            else if b.SettlePost? && s.handing.Some?
                              then s.origins + From(s.handing.value.began, s.handing.value.events) else s.origins)
    ensures Sourced(s'.proxy.p.h, s'.origins, s'.sub.h.sensors, s'.since)
  {
    match b
    case SettlePost(available, writes) =>
      var n := P.DirectWrite(s.proxy.p.q, s.proxy.posting.events, available, writes);
      SourcedAppend(s.proxy.p.h, s'.proxy.p.h, s.origins, s.sub.h.sensors, s.since, s.handing.value.began,
                    s.handing.value.events, P.PostFates(s.proxy.p.q, s.proxy.posting.events, n));
    case WriteReturns(ok) =>
      SourcedMark(s.proxy.p.h, s'.proxy.p.h, s.origins, s.sub.h.sensors, s.since, s.proxy.p.q.phase.n,
                  if ok then P.Written else P.Dropped);
    case _ =>
  }

  /** A post that begins is charged, or all its events are dropped at once. */
  lemma BeginActs(p: H.Sys, b: H.Action)
    requires H.Inv(p) && H.Enabled(p, b) && b.BeginPost? && p.posting.NoPost?
    ensures var p' := H.Next(p, b);
            && p'.p.q == p.p.q
            && (if p'.posting.Charged? then p'.posting.events == b.events && p'.p == p.p && p.p.q.run
                else p'.posting.NoPost? && p'.p.h.posted == p.p.h.posted + b.events
                     && p'.p.h.fate == p.p.h.fate + P.Same(|b.events|, P.Dropped))
  {
  }

  lemma PostInv(s: Sys, a: Action)
    requires Inv(s) && Enabled(s, a) && a.Post?
    ensures Inv(PostNext(s, a))
  {
    var b := Begin(s, a);
    ProxyKeepsInv(s.proxy, b);
    BeginActs(s.proxy, b);
    var s' := PostNext(s, a);
    if !s'.proxy.posting.Charged? {
      SourcedAppend(s.proxy.p.h, s'.proxy.p.h, s.origins, s.sub.h.sensors, s.since, s.handing.value.began,
                    s.handing.value.events, P.Same(|b.events|, P.Dropped));
    }
  }

  lemma InvNext(s: Sys, a: Action)
    requires Inv(s) && Enabled(s, a)
    ensures Inv(Next(s, a))
  {
    match a
    case Sub(b) => SubInv(s, b);
    case Proxy(b) => ProxyInv(s, b);
    case Post(_, _, _) => PostInv(s, a);
    case HandedOn =>
  }

  // ---------------------------------------------------------------- theorems over every run

  ghost predicate Run(states: seq<Sys>, acts: seq<Action>)
  {
    && |states| == |acts| + 1
    && states[0] == Init(states[0].sub.h.ready, states[0].sub.h.sensors, states[0].sub.h.canSwitchMode,
          states[0].proxy.now)
    && forall i :: 0 <= i < |acts| ==> StepAt(states, acts, i)
  }

  ghost predicate StepAt(states: seq<Sys>, acts: seq<Action>, i: nat)
    requires i < |acts| < |states|
  {
    H.Shaped(states[i].proxy) && Enabled(states[i], acts[i]) && states[i + 1] == Next(states[i], acts[i])
  }

  lemma {:induction false} InvAt(states: seq<Sys>, acts: seq<Action>, i: nat)
    requires Run(states, acts) && i < |states|
    ensures Inv(states[i])
    decreases i
  {
    if i > 0 {
      InvAt(states, acts, i - 1);
      assert StepAt(states, acts, i - 1);
      InvNext(states[i - 1], acts[i - 1]);
    }
  }

  /** Every event in the FMQ of a proxy session, or still queued for it, is an event of a poll that began after the
      sub-HAL initialize of that session: its poll had seen exactly the sub-HAL sessions begun when the proxy's
      session started, up to a wrap of the 64-bit counter, which fewer than 2^64 initializations rule out. */
  lemma EventsBelongToTheSession(states: seq<Sys>, acts: seq<Action>, i: nat, k: nat)
    requires Run(states, acts) && i < |states| && k < |states[i].origins|
    ensures var s := states[i];
            && |s.proxy.p.h.posted| == |s.proxy.p.h.fate| == |s.origins|
            && s.proxy.p.h.written == P.Select(s.proxy.p.h.posted, s.proxy.p.h.fate, P.Written)
            && s.proxy.p.h.posted[k].payload == s.origins[k].event.payload
            && (s.proxy.p.h.posted[k].wake <==>
                  s.origins[k].event.handle in s.sub.h.sensors && s.sub.h.sensors[s.origins[k].event.handle])
            && (s.proxy.p.h.fate[k] != P.Dropped ==>
                  && SameSession(s.origins[k].began, s.since)
                  && (s.since < S.EPOCHS ==> s.origins[k].began == s.since))
  {
    InvAt(states, acts, i);
    var (began, since) := (states[i].origins[k].began, states[i].since);
    if SameSession(began, since) && since < S.EPOCHS { assert 0 <= since - began < S.EPOCHS; }
  }

  /** While posts pass, the sub-HAL has been initialized for this session and for no later one. */
  lemma RunningMeansInitialized(states: seq<Sys>, acts: seq<Action>, i: nat)
    requires Run(states, acts) && i < |states| && states[i].proxy.p.q.run
    ensures states[i].since == states[i].sub.sessions && states[i].sub.h.callback.Some?
  {
    InvAt(states, acts, i);
  }

  /** A batch read in an earlier session is never charged, written or queued, even if it was already being handed on
      when the proxy stopped. */
  lemma OldBatchesAreRefused(states: seq<Sys>, acts: seq<Action>, i: nat)
    requires Run(states, acts) && i < |acts| && acts[i].Post? && states[i + 1].proxy.posting.Charged?
    ensures states[i].handing.Some? && SameSession(states[i].handing.value.began, states[i].since)
  {
    InvAt(states, acts, i);
    assert StepAt(states, acts, i);
    BeginActs(states[i].proxy, Begin(states[i], acts[i]));
  }
}
