/**
 The legacy sensors sub-HAL: framework sessions, tracked activations and the poll thread that must not carry events
 from one session into the next. Every region under mMutex is one step; the device's answers are inputs.
 */
module SubHalSession {
  import opened Common

  const EPOCHS: nat := 0x1_0000_0000_0000_0000

  datatype Mode = Normal | DataInjection

  datatype Result = Ok | PermissionDenied | NoMemory | BadValue | InvalidOperation

  const OK: int := 0

  /** resultFromStatus. */
  function FromStatus(status: int): (r: Result)
    ensures r.Ok? <==> status == OK
    ensures r.PermissionDenied? <==> status == -1
    ensures r.NoMemory? <==> status == -12
    ensures r.BadValue? <==> status == -22
  {
    if status == 0 then Ok
    else if status == -1 then PermissionDenied
    else if status == -12 then NoMemory
    else if status == -22 then BadValue
    else InvalidOperation
  }

  datatype Event = Event(handle: int, meta: bool, timestamp: int, payload: int)

  /** `sensors` maps listed handles to whether they are wake-up sensors. */
  datatype Hal = Hal(
    ready: bool,
    sensors: map<int, bool>,
    canSwitchMode: bool,
    callback: Option<nat>,
    mode: Mode,
    activeSince: map<int, int>,
    channels: set<int>,
    epoch: nat)

  // ---------------------------------------------------------------- operations

  /** setOperationModeLocked. */
  function SetMode(h: Hal, mode: Mode, status: int): (Hal, Result)
  {
    if !h.ready then (h, InvalidOperation)
    else if mode == h.mode then (h, Ok)
    else if !h.canSwitchMode then (h, InvalidOperation)
    else (if status == OK then h.(mode := mode) else h, FromStatus(status))
  }

  /** activate, with the device's answer and the time it was given. */
  function Activate(h: Hal, handle: int, enabled: bool, status: int, now: int): (Hal, Result)
  {
    if !h.ready then (h, InvalidOperation)
    else if handle !in h.sensors then (h, BadValue)
    else if enabled && h.callback.None? then (h, InvalidOperation)
    else if status != OK then (h, FromStatus(status))
    else if !enabled then (h.(activeSince := h.activeSince - {handle}), Ok)
    else if handle in h.activeSince then (h, Ok)
    else (h.(activeSince := h.activeSince[handle := now]), Ok)
  }

  /** Reaches the device at all. */
  predicate AsksDevice(h: Hal, handle: int, enabled: bool)
  {
    h.ready && handle in h.sensors && !(enabled && h.callback.None?)
  }

  /** Handles in `order` whose deactivation (or unregistration) the device refuses, by position. */
  function Refused(order: seq<int>, statuses: seq<int>): (r: set<int>)
    requires |order| == |statuses|
    ensures forall x :: x in r <==> exists i :: 0 <= i < |order| && order[i] == x && statuses[i] != OK
  {
    set i | 0 <= i < |order| && statuses[i] != OK :: order[i]
  }

  /** The error of the last refusal, if any. */
  function LastError(statuses: seq<int>, before: Result): (r: Result)
    ensures before.Ok? ==> (r.Ok? <==> forall i :: 0 <= i < |statuses| ==> statuses[i] == OK)
  {
    if statuses == [] then before
    else
      var last := statuses[|statuses| - 1];
      if last != OK then FromStatus(last) else LastError(statuses[..|statuses| - 1], before)
  }

  /** What remains of a map after every accepted key was erased. */
  lemma KeptExactly(was: map<int, int>, kept: map<int, int>, order: seq<int>, statuses: seq<int>)
    requires |order| == |statuses| && Enumerates(order, was.Keys) && kept.Keys <= was.Keys
    requires forall x :: x in kept ==> kept[x] == was[x]
    requires forall j :: 0 <= j < |order| ==> (order[j] in kept <==> statuses[j] != OK)
    ensures kept == map x | x in was && x in Refused(order, statuses) :: was[x]
  {
    forall x | x in was ensures x in kept <==> x in Refused(order, statuses) {
      var j :| 0 <= j < |order| && order[j] == x;
    }
  }

  predicate Enumerates(order: seq<int>, keys: set<int>)
  {
    && (forall i, j :: 0 <= i < j < |order| ==> order[i] != order[j])
    && (forall i :: 0 <= i < |order| ==> order[i] in keys)
    && (forall x :: x in keys ==> x in order)
  }

  /** The device's answers during one initialize: one per active sensor, one per direct channel, one for the mode. */
  datatype Answers = Answers(sensorOrder: seq<int>, sensorStatus: seq<int>,
                             channelOrder: seq<int>, channelStatus: seq<int>, modeStatus: int)

  predicate Answer(h: Hal, d: Answers)
  {
    && |d.sensorOrder| == |d.sensorStatus| && Enumerates(d.sensorOrder, h.activeSince.Keys)
    && |d.channelOrder| == |d.channelStatus| && Enumerates(d.channelOrder, h.channels)
  }

  /** initialize. */
  function Initialize(h: Hal, callback: Option<nat>, d: Answers): (Hal, Result)
    requires Answer(h, d)
  {
    if !h.ready then (h, InvalidOperation)
    else if callback.None? then (h, BadValue)
    else
      var h1 := h.(epoch := (h.epoch + 1) % EPOCHS,
                   callback := None,
                   activeSince := map x | x in h.activeSince && x in Refused(d.sensorOrder, d.sensorStatus) ::
                       h.activeSince[x],
                   channels := Refused(d.channelOrder, d.channelStatus));
      var (h2, modeResult) := SetMode(h1, Normal, d.modeStatus);
      var devices := LastError(d.channelStatus, LastError(d.sensorStatus, Ok));
      var result := if modeResult.Ok? then devices else modeResult;
      if result.Ok? then (h2.(callback := callback), Ok) else (h2, result)
  }

  /** May event `e` of a batch polled in epoch `polled` be handed on. */
  predicate Passes(h: Hal, polled: nat, e: Event)
  {
    && e.handle in h.sensors && e.handle in h.activeSince
    && (e.meta || (polled == h.epoch && e.timestamp >= h.activeSince[e.handle]))
  }

  function Filter(h: Hal, polled: nat, batch: seq<Event>): seq<Event>
  {
    if batch == [] then []
    else (if Passes(h, polled, batch[0]) then [batch[0]] else []) + Filter(h, polled, batch[1..])
  }

  /** What the poll thread posts for a batch: to whom, which events, and whether with a locked wake lock. */
  datatype Delivery = Delivery(callback: nat, events: seq<Event>, wake: bool)

  function Wakes(h: Hal, es: seq<Event>): bool
  {
    exists i :: 0 <= i < |es| && es[i].handle in h.sensors && h.sensors[es[i].handle]
  }

  /** pollForEvents after poll() returned a usable batch. */
  function Deliver(h: Hal, polled: nat, batch: seq<Event>): Option<Delivery>
  {
    if h.callback.None? || polled != h.epoch then None
    else
      var out := Filter(h, polled, batch);
      if out == [] then None else Some(Delivery(h.callback.value, out, Wakes(h, out)))
  }

  // ---------------------------------------------------------------- runs

  /** `sessions`: initialize calls that got past their checks. `poll`: the epoch the running poll captured, and how
      many sessions had begun by then. `enabled`: the sensors the device last accepted as enabled. */
  datatype Sys = Sys(h: Hal, sessions: nat, poll: Option<(nat, nat)>, enabled: set<int>, posted: seq<Delivery>)

  datatype Action =
    | Initializing(callback: Option<nat>, answers: Answers)
    | Activating(handle: int, on: bool, status: int, now: int)
    | SettingMode(mode: Mode, modeStatus: int)
    | PollBegins
    | PollReturns(batch: seq<Event>)
    | PollFails
    | ChannelRegistered(channel: int)
    | ChannelUnregistered(gone: int, channelStatus: int)

  function Init(ready: bool, sensors: map<int, bool>, canSwitchMode: bool): Sys
  {
    Sys(Hal(ready, sensors, canSwitchMode, None, Normal, map[], {}, 0), 0, None, {}, [])
  }

  predicate Enabled(s: Sys, a: Action)
  {
    match a
    case Initializing(_, d) => Answer(s.h, d)
    case PollBegins => s.poll.None?
    case PollReturns(_) => s.poll.Some?
    case PollFails => s.poll.Some?
    case _ => true
  }

  function Next(s: Sys, a: Action): Sys
    requires Enabled(s, a)
  {
    match a
    case Initializing(callback, d) =>
      s.(h := Initialize(s.h, callback, d).0,
         sessions := if s.h.ready && callback.Some? then s.sessions + 1 else s.sessions,
         enabled := if s.h.ready && callback.Some?
                    then s.enabled * Refused(d.sensorOrder, d.sensorStatus) else s.enabled)
    case Activating(handle, on, status, now) =>
      s.(h := Activate(s.h, handle, on, status, now).0,
         enabled := if AsksDevice(s.h, handle, on) && status == OK
                    then if on then s.enabled + {handle} else s.enabled - {handle} else s.enabled)
    case SettingMode(mode, status) => s.(h := SetMode(s.h, mode, status).0)
    case PollBegins => s.(poll := Some((s.h.epoch, s.sessions)))
    case PollReturns(batch) =>
      var d := Deliver(s.h, s.poll.value.0, batch);
      s.(poll := None, posted := if d.Some? then s.posted + [d.value] else s.posted)
    case PollFails => s.(poll := None)
    case ChannelRegistered(channel) => if channel > 0 then s.(h := s.h.(channels := s.h.channels + {channel})) else s
    case ChannelUnregistered(channel, status) =>
      if channel in s.h.channels && status == OK then s.(h := s.h.(channels := s.h.channels - {channel})) else s
  }

  ghost predicate Inv(s: Sys)
  {
    && s.h.epoch == s.sessions % EPOCHS
    && s.h.activeSince.Keys == s.enabled
    && s.enabled <= s.h.sensors.Keys
    && (s.poll.Some? ==> s.poll.value.1 <= s.sessions && s.poll.value.0 == s.poll.value.1 % EPOCHS)
  }

  lemma SuccessorEpoch(n: nat)
    ensures (n % EPOCHS + 1) % EPOCHS == (n + 1) % EPOCHS
  {
  }

  lemma InvNext(s: Sys, a: Action)
    requires Inv(s) && Enabled(s, a)
    ensures Inv(Next(s, a))
  {
    SuccessorEpoch(s.sessions);
  }

  ghost predicate Run(states: seq<Sys>, acts: seq<Action>)
  {
    && |states| == |acts| + 1
    && states[0] == Init(states[0].h.ready, states[0].h.sensors, states[0].h.canSwitchMode)
    && forall i :: 0 <= i < |acts| ==> StepAt(states, acts, i)
  }

  ghost predicate StepAt(states: seq<Sys>, acts: seq<Action>, i: nat)
    requires i < |acts| < |states|
  {
    Enabled(states[i], acts[i]) && states[i + 1] == Next(states[i], acts[i])
  }

  lemma {:induction false} InvAt(states: seq<Sys>, acts: seq<Action>, i: nat)
    requires Run(states, acts) && i < |states|
    ensures Inv(states[i])
  {
    if i > 0 {
      InvAt(states, acts, i - 1);
      assert StepAt(states, acts, i - 1);
      InvNext(states[i - 1], acts[i - 1]);
    }
  }

  /** Filtering keeps order and exactly the events that pass. */
  lemma {:induction false} FilterExact(h: Hal, polled: nat, batch: seq<Event>)
    ensures forall e :: e in Filter(h, polled, batch) <==> e in batch && Passes(h, polled, e)
    decreases |batch|
  {
    if batch != [] {
      FilterExact(h, polled, batch[1..]);
      assert batch == [batch[0]] + batch[1..];
    }
  }

  /** A batch is filtered event by event, in order and with repetitions. */
  lemma {:induction false} FilterAppend(h: Hal, polled: nat, a: seq<Event>, b: seq<Event>)
    ensures Filter(h, polled, a + b) == Filter(h, polled, a) + Filter(h, polled, b)
    decreases |a|
  {
    if a == [] { assert a + b == b; } else {
      assert (a + b)[1..] == a[1..] + b;
      FilterAppend(h, polled, a[1..], b);
    }
  }

  lemma SameEpochSameSession(a: nat, b: nat)
    requires a <= b < a + EPOCHS && a % EPOCHS == b % EPOCHS
    ensures a == b
  {
    assert (b - a) % EPOCHS == 0;
  }

  /** What a batch leads to: everything handed on goes to the current callback, comes from a listed and active
      sensor, is no older than its activation unless it is metadata, and was polled after the initialize that
      installed this callback (if fewer than 2^64 initializations happened during the poll). The wake flag is exact. */
  lemma DeliveriesBelongToTheSession(states: seq<Sys>, acts: seq<Action>, i: nat)
    requires Run(states, acts) && i < |acts| && acts[i].PollReturns?
    ensures var (s, batch) := (states[i], acts[i].batch);
            && s.poll.Some?
            && var d := Deliver(s.h, s.poll.value.0, batch);
            && states[i + 1].posted == s.posted + (if d.Some? then [d.value] else [])
            && (d.Some? ==>
                  && s.h.callback == Some(d.value.callback) && d.value.events != []
                  && (s.sessions - s.poll.value.1 < EPOCHS ==> s.poll.value.1 == s.sessions)
                  && (forall e :: e in d.value.events ==>
                        && e in batch && e.handle in s.h.sensors && e.handle in s.enabled && e.handle in s.h.activeSince
                        && (!e.meta ==> e.timestamp >= s.h.activeSince[e.handle]))
                  && (forall e :: e in batch && Passes(s.h, s.poll.value.0, e) ==> e in d.value.events)
                  && (d.value.wake <==> exists e :: e in d.value.events && s.h.sensors[e.handle]))
            && (d.None? && s.h.callback.Some? && s.poll.value.1 == s.sessions ==>
                  forall e :: e in batch ==> !Passes(s.h, s.h.epoch, e))
  {
    InvAt(states, acts, i);
    assert StepAt(states, acts, i);
    var (s, batch) := (states[i], acts[i].batch);
    var polled := s.poll.value.0;
    FilterExact(s.h, polled, batch);
    if s.sessions - s.poll.value.1 < EPOCHS && polled == s.h.epoch {
      SameEpochSameSession(s.poll.value.1, s.sessions);
    }
    var d := Deliver(s.h, polled, batch);
    if d.Some? && d.value.wake {
      var k :| 0 <= k < |d.value.events| && d.value.events[k].handle in s.h.sensors
          && s.h.sensors[d.value.events[k].handle];
      assert d.value.events[k] in d.value.events;
    }
  }

  /** The 64-bit session counter lets a batch through exactly when the number of sessions begun during its poll is a
      multiple of 2^64, zero in practice. */
  lemma EpochMatchesExactlyOnWrap(states: seq<Sys>, acts: seq<Action>, i: nat)
    requires Run(states, acts) && i < |states| && states[i].poll.Some?
    ensures states[i].poll.value.1 <= states[i].sessions
    ensures states[i].poll.value.0 == states[i].h.epoch <==> (states[i].sessions - states[i].poll.value.1) % EPOCHS == 0
  {
    InvAt(states, acts, i);
    var (began, now) := (states[i].poll.value.1, states[i].sessions);
    assert now == began + (now - began);
  }

  /** The tracked activations are exactly what the device last accepted, through every failure and retry. */
  lemma TrackedSensorsMatchTheDevice(states: seq<Sys>, acts: seq<Action>, i: nat)
    requires Run(states, acts) && i < |states|
    ensures states[i].h.activeSince.Keys == states[i].enabled <= states[i].h.sensors.Keys
  {
    InvAt(states, acts, i);
  }

  /** A successful initialize starts from nothing active, no direct channel and NORMAL mode, with the new callback;
      a failed one past its checks leaves no callback, and keeps for retry exactly what the device refused. */
  lemma InitializeStartsClean(states: seq<Sys>, acts: seq<Action>, i: nat)
    requires Run(states, acts) && i < |acts| && acts[i].Initializing?
    ensures Answer(states[i].h, acts[i].answers)
    ensures var (s, s', a) := (states[i], states[i + 1], acts[i]);
            var r := Initialize(s.h, a.callback, a.answers).1;
            && (r.Ok? ==>
                  && s'.enabled == {} && s'.h.activeSince == map[] && s'.h.channels == {} && s'.h.mode.Normal?
                  && s'.h.callback == a.callback && a.callback.Some? && s'.sessions == s.sessions + 1)
            && (!r.Ok? && s.h.ready && a.callback.Some? ==>
                  && s'.h.callback.None? && s'.sessions == s.sessions + 1
                  && s'.h.channels == Refused(a.answers.channelOrder, a.answers.channelStatus)
                  && s'.enabled == Refused(a.answers.sensorOrder, a.answers.sensorStatus)
                  && (forall x :: x in s'.enabled ==>
                        x in s.h.activeSince && x in s'.h.activeSince && s'.h.activeSince[x] == s.h.activeSince[x]))
            && (r.Ok? <==> s.h.ready && a.callback.Some?
                           && (forall k :: 0 <= k < |a.answers.sensorStatus| ==> a.answers.sensorStatus[k] == OK)
                           && (forall k :: 0 <= k < |a.answers.channelStatus| ==> a.answers.channelStatus[k] == OK)
                           && (s.h.mode.Normal? || (s.h.canSwitchMode && a.answers.modeStatus == OK)))
  {
    InvAt(states, acts, i);
    InvAt(states, acts, i + 1);
    assert StepAt(states, acts, i);
    ErrorsSurvive(acts[i].answers.channelStatus, LastError(acts[i].answers.sensorStatus, Ok));
  }

  lemma {:induction false} ErrorsSurvive(statuses: seq<int>, before: Result)
    ensures !before.Ok? ==> !LastError(statuses, before).Ok?
    decreases |statuses|
  {
    if statuses != [] { ErrorsSurvive(statuses[..|statuses| - 1], before); }
  }

  // ---------------------------------------------------------------- the code, in place

  class SubHal {
    const ready: bool
    const sensors: map<int, bool>
    const canSwitchMode: bool
    var callback: Option<nat>
    var mode: Mode
    var activeSince: map<int, int>
    var channels: set<int>
    var epoch: nat

    ghost function View(): Hal
      reads this
    {
      Hal(ready, sensors, canSwitchMode, callback, mode, activeSince, channels, epoch)
    }

    constructor (ready: bool, sensors: map<int, bool>, canSwitchMode: bool)
      ensures View() == Init(ready, sensors, canSwitchMode).h
    {
      this.ready, this.sensors, this.canSwitchMode := ready, sensors, canSwitchMode;
      callback, mode, activeSince, channels, epoch := None, Normal, map[], {}, 0;
    }

    method SetOperationModeLocked(m: Mode, status: int) returns (r: Result)
      modifies this`mode
      ensures (View(), r) == SetMode(old(View()), m, status)
    {
      if !ready { return InvalidOperation; }
      if m == mode { return Ok; }
      if !canSwitchMode { return InvalidOperation; }
      if status == OK { mode := m; }
      return FromStatus(status);
    }

    method ActivateSensor(handle: int, enabled: bool, status: int, now: int) returns (r: Result)
      modifies this`activeSince
      ensures (View(), r) == Activate(old(View()), handle, enabled, status, now)
    {
      if !ready { return InvalidOperation; }
      if handle !in sensors { return BadValue; }
      if enabled && callback.None? { return InvalidOperation; }
      if status == OK {
        if enabled {
          if handle !in activeSince { activeSince := activeSince[handle := now]; }
        } else {
          activeSince := activeSince - {handle};
        }
      }
      return FromStatus(status);
    }

    /** Turn every tracked sensor off, erasing while iterating; what the device refuses stays for a retry. */
    method DeactivateAll(order: seq<int>, statuses: seq<int>) returns (r: Result)
      requires |order| == |statuses| && Enumerates(order, activeSince.Keys)
      modifies this`activeSince
      ensures activeSince == map x | x in old(activeSince) && x in Refused(order, statuses) :: old(activeSince)[x]
      ensures r == LastError(statuses, Ok)
    {
      r := Ok;
      var i := 0;
      while i < |order|
        invariant 0 <= i <= |order|
        invariant activeSince.Keys <= old(activeSince.Keys)
        invariant forall x :: x in activeSince ==> activeSince[x] == old(activeSince)[x]
        invariant forall j :: 0 <= j < i ==> (order[j] in activeSince <==> statuses[j] != OK)
        invariant forall j :: i <= j < |order| ==> order[j] in activeSince
        invariant r == LastError(statuses[..i], Ok)
      {
        assert statuses[..i + 1][..i] == statuses[..i];
        if statuses[i] != OK {
          r := FromStatus(statuses[i]);
        } else {
          activeSince := activeSince - {order[i]};
        }
        i := i + 1;
      }
      assert statuses[..i] == statuses;
      KeptExactly(old(activeSince), activeSince, order, statuses);
    }

    method UnregisterAll(order: seq<int>, statuses: seq<int>, before: Result) returns (r: Result)
      requires |order| == |statuses| && Enumerates(order, channels)
      modifies this`channels
      ensures channels == Refused(order, statuses)
      ensures r == LastError(statuses, before)
    {
      r := before;
      var i := 0;
      while i < |order|
        invariant 0 <= i <= |order|
        invariant channels <= old(channels)
        invariant forall j :: 0 <= j < i ==> (order[j] in channels <==> statuses[j] != OK)
        invariant forall j :: i <= j < |order| ==> order[j] in channels
        invariant r == LastError(statuses[..i], before)
      {
        assert statuses[..i + 1][..i] == statuses[..i];
        if statuses[i] != OK {
          r := FromStatus(statuses[i]);
        } else {
          channels := channels - {order[i]};
        }
        i := i + 1;
      }
      assert statuses[..i] == statuses;
      forall x | x in old(channels) ensures x in channels <==> x in Refused(order, statuses) {
        var j :| 0 <= j < |order| && order[j] == x;
      }
    }

    method InitializeSession(newCallback: Option<nat>, d: Answers) returns (r: Result)
      requires Answer(View(), d)
      modifies this
      ensures (View(), r) == Initialize(old(View()), newCallback, d)
    {
      if !ready { return InvalidOperation; }
      if newCallback.None? { return BadValue; }
      epoch := (epoch + 1) % EPOCHS;
      callback := None;
      r := DeactivateAll(d.sensorOrder, d.sensorStatus);
      r := UnregisterAll(d.channelOrder, d.channelStatus, r);
      var modeResult := SetOperationModeLocked(Normal, d.modeStatus);
      if !modeResult.Ok? { r := modeResult; }
      if !r.Ok? { return; }
      callback := newCallback;
    }

    /** The poll thread with a returned batch. */
    method HandleBatch(polled: nat, batch: seq<Event>) returns (d: Option<Delivery>)
      ensures d == Deliver(View(), polled, batch)
    {
      if callback.None? || polled != epoch { return None; }
      var events: seq<Event> := [];
      var wakeup := false;
      var i := 0;
      while i < |batch|
        invariant 0 <= i <= |batch|
        invariant events == Filter(View(), polled, batch[..i])
        invariant wakeup == Wakes(View(), events)
      {
        var e := batch[i];
        assert batch[..i + 1] == batch[..i] + [e] && [e][1..] == [];
        FilterAppend(View(), polled, batch[..i], [e]);
        i := i + 1;
        if e.handle !in sensors || e.handle !in activeSince { continue; }
        if !e.meta && !(polled == epoch && e.timestamp >= activeSince[e.handle]) { continue; }
        WakesAppend(View(), events, e);
        wakeup := wakeup || sensors[e.handle];
        events := events + [e];
      }
      assert batch[..i] == batch;
      if events == [] { return None; }
      return Some(Delivery(callback.value, events, wakeup));
    }
  }

  lemma WakesAppend(h: Hal, es: seq<Event>, e: Event)
    ensures Wakes(h, es + [e]) <==> Wakes(h, es) || (e.handle in h.sensors && h.sensors[e.handle])
  {
    var all := es + [e];
    if Wakes(h, es) {
      var i :| 0 <= i < |es| && es[i].handle in h.sensors && h.sensors[es[i].handle];
      assert all[i] == es[i];
    }
    assert all[|es|] == e;
  }
}
