/** What each sub-HAL operation does, over every run, without reference to the functions that compute it. */
module SubHalLaws {
  import opened Common
  import opened SubHalSession

  /** A sample no older than its sensor's activation, or flush metadata, which has no timestamp of its own. */
  predicate Fits(e: Event, since: int) { e.meta || e.timestamp >= since }

  /** With a callback installed and a poll begun in this session, what is posted are exactly the events of the batch
      that come from an enabled sensor and fit; a batch without any posts nothing. */
  lemma FittingEventsAreDelivered(states: seq<Sys>, acts: seq<Action>, i: nat, e: Event)
    requires Run(states, acts) && i < |acts| && acts[i].PollReturns?
    requires states[i].h.callback.Some? && states[i].poll.Some? && states[i].poll.value.1 == states[i].sessions
    requires e in acts[i].batch
    ensures e.handle in states[i].enabled ==> e.handle in states[i].h.activeSince
    ensures var (s, s') := (states[i], states[i + 1]);
            var fits := e.handle in s.enabled && Fits(e, s.h.activeSince[e.handle]);
            && (fits ==> |s'.posted| == |s.posted| + 1 && e in s'.posted[|s.posted|].events)
            && (!fits ==>
                  || s'.posted == s.posted
                  || (|s'.posted| == |s.posted| + 1 && e !in s'.posted[|s.posted|].events))
  {
    InvAt(states, acts, i);
    assert StepAt(states, acts, i);
    FilterExact(states[i].h, states[i].poll.value.0, acts[i].batch);
  }

  /** Without a callback nothing is posted. */
  lemma NothingIsPostedWithoutCallback(states: seq<Sys>, acts: seq<Action>, i: nat)
    requires Run(states, acts) && i < |acts| && states[i].h.callback.None?
    ensures states[i + 1].posted == states[i].posted
  {
    assert StepAt(states, acts, i);
  }

  /** An activation counts from the first time the device accepted it: repeating it keeps the time, a deactivation
      forgets it, a refusal or an unlisted sensor changes nothing, and no other sensor is affected. */
  lemma ActivationsExactly(states: seq<Sys>, acts: seq<Action>, i: nat)
    requires Run(states, acts) && i < |acts| && acts[i].Activating?
    ensures var (h, h', a) := (states[i].h, states[i + 1].h, acts[i]);
            var asked := h.ready && a.handle in h.sensors && (a.on ==> h.callback.Some?) && a.status == 0;
            && h' == h.(activeSince := h'.activeSince)
            && (Activate(h, a.handle, a.on, a.status, a.now).1.Ok? <==> asked)
            && (!asked ==> h'.activeSince == h.activeSince)
            && (asked && !a.on ==> h'.activeSince == h.activeSince - {a.handle})
            && (asked && a.on && a.handle in h.activeSince ==> h'.activeSince == h.activeSince)
            && (asked && a.on && a.handle !in h.activeSince ==> h'.activeSince == h.activeSince[a.handle := a.now])
  {
    assert StepAt(states, acts, i);
  }

  /** The mode changes exactly when another one is asked for, the device can switch and accepts. */
  lemma ModeExactly(states: seq<Sys>, acts: seq<Action>, i: nat)
    requires Run(states, acts) && i < |acts| && acts[i].SettingMode?
    ensures var (h, h', a) := (states[i].h, states[i + 1].h, acts[i]);
            && h' == h.(mode := if h.ready && h.canSwitchMode && a.modeStatus == 0 then a.mode else h.mode)
            && (SetMode(h, a.mode, a.modeStatus).1.Ok? <==> h.ready && h'.mode == a.mode)
  {
    assert StepAt(states, acts, i);
  }

  /** Direct channels are tracked from a registration with a positive number to an accepted unregistration. */
  lemma ChannelsExactly(states: seq<Sys>, acts: seq<Action>, i: nat)
    requires Run(states, acts) && i < |acts| && (acts[i].ChannelRegistered? || acts[i].ChannelUnregistered?)
    ensures var (h, h', a) := (states[i].h, states[i + 1].h, acts[i]);
            && h' == h.(channels := h'.channels)
            && (a.ChannelRegistered? ==> h'.channels == if a.channel > 0 then h.channels + {a.channel} else h.channels)
            && (a.ChannelUnregistered? ==>
                  h'.channels == if a.channelStatus == 0 then h.channels - {a.gone} else h.channels)
  {
    assert StepAt(states, acts, i);
  }

  /** The error reported is that of the last refusal: of the mode, else of the last channel, else of the last sensor. */
  lemma {:induction false} LastErrorExactly(statuses: seq<int>, before: Result, k: nat)
    requires k < |statuses| && statuses[k] != 0 && forall j :: k < j < |statuses| ==> statuses[j] == 0
    ensures LastError(statuses, before) == FromStatus(statuses[k])
    decreases |statuses|
  {
    if k < |statuses| - 1 { LastErrorExactly(statuses[..|statuses| - 1], before, k); }
  }

  lemma {:induction false} NoErrorKeepsTheEarlierOne(statuses: seq<int>, before: Result)
    requires forall j :: 0 <= j < |statuses| ==> statuses[j] == 0
    ensures LastError(statuses, before) == before
    decreases |statuses|
  {
    if statuses != [] { NoErrorKeepsTheEarlierOne(statuses[..|statuses| - 1], before); }
  }

  /** Every initialize that gets past its checks begins a session: polls begun before it no longer match. */
  lemma InitializeBeginsASession(states: seq<Sys>, acts: seq<Action>, i: nat)
    requires Run(states, acts) && i < |acts| && acts[i].Initializing?
    ensures var (s, s') := (states[i], states[i + 1]);
            if s.h.ready && acts[i].callback.Some?
            then s'.sessions == s.sessions + 1 && s'.h.epoch == (s.h.epoch + 1) % 0x1_0000_0000_0000_0000
            else s' == s
  {
    assert StepAt(states, acts, i);
  }
}
