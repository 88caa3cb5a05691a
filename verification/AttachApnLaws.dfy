/**
 What the replay protocol does, step by step and over runs, in terms of what a caller can see: payloads are
 remembered, resets are noted, a pending replay is never forgotten, and a worker that may act does.
 */
module AttachApnLaws {
  import opened Common
  import opened Sockets
  import opened AttachApnReplay

  /** NULL needs no memory. */
  predicate Granted(src: CString, memory: bool) { src == Null || memory }

  /** A request the shim takes a copy of: a SIM's socket, 88 bytes, and memory for every string that is there. */
  predicate Remembered(socket: int, data: Option<Payload>, datalen: nat, a: Alloc)
  {
    && 0 <= socket < 2 && data.Some? && datalen == 88
    && Granted(data.value.apn, a.apn) && Granted(data.value.protocol, a.protocol)
    && Granted(data.value.roamingProtocol, a.roamingProtocol) && Granted(data.value.username, a.username)
    && Granted(data.value.password, a.password) && Granted(data.value.mvnoType, a.mvnoType)
    && Granted(data.value.mvnoMatchData, a.mvnoMatchData)
  }

  /** Every remembered request replaces its socket's payload, every other one changes nothing. */
  lemma PayloadsAreRemembered(states: seq<Sys>, acts: seq<Action>, i: nat)
    requires Run(states, acts) && i < |acts| && acts[i].Cache?
    ensures SysShape(states[i])
    ensures var (s, s', a) := (states[i], states[i + 1], acts[i]);
            if Remembered(a.socket, a.data, a.datalen, a.alloc)
            then s'.ia == s.ia.(cache := s.ia.cache[a.socket := a.data])
                 && s'.hist.accepted == s.hist.accepted[a.socket := s.hist.accepted[a.socket] + [a.data.value]]
            else s' == s
  {
    assert StepAt(states, acts, i);
  }

  /** Every reset indication for a socket whose payload is known makes that socket pending, and nothing else does. */
  lemma ResetsAreNoted(states: seq<Sys>, acts: seq<Action>, i: nat)
    requires Run(states, acts) && i < |acts| && acts[i].Unsol?
    ensures SysShape(states[i])
    ensures var (s, s', a) := (states[i], states[i + 1], acts[i]);
            && (a.code == 3020 && 0 <= a.socket < 2 && s.hist.accepted[a.socket] != [] ==>
                  && s'.ia == s.ia.(pending := s.ia.pending[a.socket := true])
                  && s'.hist.resets == s.hist.resets[a.socket := s.hist.resets[a.socket] + 1])
            && (!(a.code == 3020 && 0 <= a.socket < 2 && s.hist.accepted[a.socket] != []) ==> s' == s)
  {
    RunInvariants(states, acts, i);
    assert StepAt(states, acts, i);
    var k := acts[i].socket;
    if 0 <= k < 2 { assert SocketInv(states[i], k); }
  }

  lemma PendingEndsRegion(s: Sys, ia: Ia, o: Outcome, c: Clock, k: nat)
    requires SysShape(s) && !s.pc.Handing? && RegionEffect(s.ia, ia, o, c) && k < SIM_COUNT
    requires s.ia.pending[k]
    ensures var s' := AfterRegion(s, ia, o, c);
            && SysShape(s')
            && (!s'.ia.pending[k] <==>
                  || s'.hist.rejections[k] == s.hist.rejections[k] + 1
                  || IssuesTo(s'.hist.issues, k) == IssuesTo(s.hist.issues, k) + 1)
  {
    RegionShape(s, ia, o, c);
    if o.Issued? { IssuesToAppend(s.hist.issues, Request(o.token, o.socket, o.payload), k); }
  }

  /** A pending replay ends only by being issued or rejected, and either ends it. */
  lemma PendingEndsOnlyByReplay(states: seq<Sys>, acts: seq<Action>, i: nat, k: nat)
    requires Run(states, acts) && i < |acts| && k < SIM_COUNT && SysShape(states[i]) && states[i].ia.pending[k]
    ensures SysShape(states[i + 1])
    ensures var (s, s') := (states[i], states[i + 1]);
            !s'.ia.pending[k] <==>
              || s'.hist.rejections[k] == s.hist.rejections[k] + 1
              || IssuesTo(s'.hist.issues, k) == IssuesTo(s.hist.issues, k) + 1
  {
    assert StepAt(states, acts, i);
    RunInvariants(states, acts, i + 1);
    if acts[i].Worker? {
      var ia, o := WorkerStep(states[i], acts[i].clock, acts[i].workerAlloc);
      PendingEndsRegion(states[i], ia, o, acts[i].clock, k);
    }
  }

  // ---------------------------------------------------------------- what a worker region does, exactly

  /** The request in flight is still waited for: there is one, it has a deadline, and if the worker was in its timed
      wait the clock works and has not reached it. */
  predicate StillWaits(s: Ia, waited: bool, c: Clock)
  {
    s.inFlight && s.deadline != 0 && (waited ==> c.afterWait.Some? && c.afterWait.value < s.deadline)
  }

  predicate SomethingPending(s: Ia)
    requires Shape(s)
  {
    exists k :: 0 <= k < SIM_COUNT && s.pending[k] && s.cache[k].Some?
  }

  /** The clock can be read and at least a second has passed since the last attempt, if that one was recorded. */
  predicate RateAllows(s: Ia, now: Option<int>)
  {
    && now.Some?
    && (s.lastIssue.None? || s.lastIssue.value + 1_000_000_000 <= now.value || s.lastIssue.value + 1_000_000_000 == 0)
  }

  /** Zero when the clock could not be read: such a request is not waited for. */
  function TenSecondsAfter(t: Option<int>): int { if t.Some? then t.value + 10_000_000_000 else 0 }

  predicate CanCopy(p: Payload, a: Alloc) { Remembered(0, Some(p), 88, a) }

  /** A worker that need not wait, has something pending and may act by the clock makes exactly one attempt: a
      rejection when all sixteen tokens are out, a failed copy, or an issue that is waited for ten seconds. */
  lemma RegionExactly(s: Ia, waited: bool, c: Clock, a: Alloc)
    requires Shape(s)
    ensures var (s', o) := WorkerRegion(s, waited, c, a);
            && (o.TimedWait? <==> StillWaits(s, waited, c))
            && (o.Idle? <==> !StillWaits(s, waited, c) && !SomethingPending(s))
            && (o.Sleep? <==> !StillWaits(s, waited, c) && SomethingPending(s) && !RateAllows(s, c.now))
            && (o.Sleep? ==>
                  if c.now.None? then o.until.None?
                  else s.lastIssue.Some? && o.until == Some(s.lastIssue.value + 1_000_000_000))
            && (o.Rejected? || o.OutOfMemory? || o.Issued? ==>
                  && o.socket < SIM_COUNT && s.cache[o.socket].Some?
                  && (o.Rejected? <==> forall t :: 0 <= t < 16 ==> s.outstanding[t])
                  && (!o.Rejected? ==> (o.Issued? <==> CanCopy(s.cache[o.socket].value, a))))
            && (o.Issued? ==> s'.inFlight && s'.deadline == TenSecondsAfter(c.issuedAt))
  {
    var s2 := Settle(s, waited, c);
    assert s2.inFlight <==> StillWaits(s, waited, c);
    if !s2.inFlight {
      PickExactly(s, s2);
      if PickSocket(s2).Some? && MustSleep(s2, c.now).None? { IssueExactly(s, s2, PickSocket(s2).value, c, a); }
    }
  }

  lemma PickExactly(s: Ia, s2: Ia)
    requires Shape(s) && Shape(s2) && s2.pending == s.pending && s2.cache == s.cache
    ensures PickSocket(s2).Some? <==> SomethingPending(s)
    ensures PickSocket(s2).Some? ==> PickSocket(s2).value < SIM_COUNT && s2.cache[PickSocket(s2).value].Some?
  {
    if SomethingPending(s) {
      var k :| 0 <= k < SIM_COUNT && s.pending[k] && s.cache[k].Some?;
      assert Ready(s2)[k];
    }
  }

  lemma TokenExactly(s: Ia)
    requires Shape(s)
    ensures PickToken(s).None? <==> forall t :: 0 <= t < 16 ==> s.outstanding[t]
  {
    if PickToken(s).None? { assert forall t :: 0 <= t < 16 ==> !Free(s)[t]; }
  }

  /** How many tokens after the current one `t` is, the next one being number 0. */
  function TokensAfter(current: nat, t: nat): nat
    requires current < 16 && t < 16
  {
    if t > current then t - current - 1 else t + 15 - current
  }

  /** The token of an issue is the first free one after the current one. */
  lemma NextTokenExactly(s: Ia)
    requires Shape(s) && PickToken(s).Some?
    ensures var t := PickToken(s).value;
            && t < 16 && !s.outstanding[t]
            && forall u: nat :: u < 16 && !s.outstanding[u] ==> TokensAfter(s.current, t) <= TokensAfter(s.current, u)
  {
    var start := (s.current + 1) % 16;
    assert start == if s.current == 15 then 0 else s.current + 1;
    forall u: nat | u < 16 ensures Distance(start, u, 16) == TokensAfter(s.current, u) { }
    forall u: nat | u < 16 && !s.outstanding[u]
      ensures TokensAfter(s.current, PickToken(s).value) <= TokensAfter(s.current, u)
    {
      assert Free(s)[u];
    }
  }

  /** Over every run a free slot has no deadline. */
  lemma {:induction false} FreeSlotHasNoDeadline(states: seq<Sys>, acts: seq<Action>, i: nat)
    requires Run(states, acts) && i < |states|
    ensures !states[i].ia.inFlight ==> states[i].ia.deadline == 0
    decreases i
  {
    if i > 0 {
      FreeSlotHasNoDeadline(states, acts, i - 1);
      assert StepAt(states, acts, i - 1);
      var (s, a) := (states[i - 1], acts[i - 1]);
      if a.Worker? { RegionClearsDeadline(s.ia, s.pc.Waiting?, a.clock, a.workerAlloc); }
    }
  }

  lemma RegionClearsDeadline(s: Ia, waited: bool, c: Clock, a: Alloc)
    requires Shape(s) && (!s.inFlight ==> s.deadline == 0)
    ensures var s' := WorkerRegion(s, waited, c, a).0; !s'.inFlight ==> s'.deadline == 0
  {
  }

  lemma CopyExactly(p: Payload, a: Alloc)
    ensures CopyIa(p, a).Some? <==> CanCopy(p, a)
  {
  }

  lemma IssueExactly(s: Ia, s2: Ia, k: nat, c: Clock, a: Alloc)
    requires Shape(s) && Shape(s2) && s2.outstanding == s.outstanding && s2.cache == s.cache
    requires k < SIM_COUNT && s2.cache[k].Some?
    ensures var (s', o) := TryIssue(s2, k, c, a);
            && (o.Rejected? || o.OutOfMemory? || o.Issued?) && o.socket == k
            && (o.Rejected? <==> forall t :: 0 <= t < 16 ==> s.outstanding[t])
            && (!o.Rejected? ==> (o.Issued? <==> CanCopy(s.cache[k].value, a)))
            && (o.Issued? ==> s'.inFlight && s'.deadline == TenSecondsAfter(c.issuedAt))
  {
    TokenExactly(s2);
    CopyExactly(s2.cache[k].value, a);
  }

  /** Over runs with a working clock: an attempt is made exactly when no request is waited for, something is pending and
      a second has passed since the last attempt. */
  lemma WorkerActsWhenItMay(states: seq<Sys>, acts: seq<Action>, i: nat)
    requires Run(states, acts) && i < |acts| && acts[i].Worker?
    requires forall j :: 0 <= j <= i ==> WorkingClock(states[j], acts[j])
    ensures SysShape(states[i]) && WorkingClock(states[i], acts[i])
    ensures var (s, s', c) := (states[i], states[i + 1], acts[i].clock);
            |s'.hist.attempts| == |s.hist.attempts| + 1 <==>
              && !(s.ia.inFlight && (s.pc.Waiting? ==> c.afterWait.value < s.ia.deadline))
              && SomethingPending(s.ia)
              && (s.hist.attempts != [] ==>
                    s.hist.attempts[|s.hist.attempts| - 1] + 1_000_000_000 <= c.now.value)
  {
    RateInvAt(states, acts, i);
    AttemptsAreRateLimited(states, acts, i);
    assert StepAt(states, acts, i);
    var s := states[i];
    RegionExactly(s.ia, s.pc.Waiting?, acts[i].clock, acts[i].workerAlloc);
  }

  /** Over every run the worker is in its timed wait exactly after a region that found a request to wait for, and hands
      a request over exactly after a region that issued one. */
  lemma PhasesExactly(states: seq<Sys>, acts: seq<Action>, i: nat)
    requires Run(states, acts) && i < |acts| && acts[i].Worker?
    ensures var (s, s', c) := (states[i], states[i + 1], acts[i].clock);
            && (s'.pc.Waiting? <==> StillWaits(s.ia, s.pc.Waiting?, c))
            && (s'.pc.Handing? <==> |s'.hist.issues| == |s.hist.issues| + 1)
            && (!s'.pc.Handing? ==> s'.hist.issues == s.hist.issues)
  {
    RunInvariants(states, acts, i);
    assert StepAt(states, acts, i);
    var s := states[i];
    RegionExactly(s.ia, s.pc.Waiting?, acts[i].clock, acts[i].workerAlloc);
  }
}
