/**
 The initial-attach APN replay of the RIL shim: per-socket cache and pending flags, one
 single-flight slot with a latched deadline, a rate limiter and a pool of sixteen tokens.

 Each region the C code runs under sIaLock is one atomic step. The vendor, the clock, the
 allocator and the scheduler are unconstrained inputs. `Ia` is the locked state; `Sys` adds the
 worker's position and a history that only the theorems look at. A run is a sequence of actions.
 */
module AttachApnReplay {
  import opened Common
  import opened Sockets

  const TOKEN_SLOTS: nat := 16
  const MIN_INTERVAL_NS: nat := 1_000_000_000
  const INFLIGHT_TIMEOUT_NS: nat := 10_000_000_000
  const PAYLOAD_BYTES: nat := 88
  const UNSOL_RESET_ATTACH_APN: int := 3020

  // ---------------------------------------------------------------- payload

  /** A C string pointer: NULL is not the empty string. */
  datatype CString = Null | Text(chars: string)

  datatype Payload = Payload(
    apn: CString, protocol: CString, roamingProtocol: CString, authtype: int,
    username: CString, password: CString, supportedTypesBitmask: int, bearerBitmask: int,
    modemCognitive: int, mtu: int, mvnoType: CString, mvnoMatchData: CString, canHandleIms: int)

  /** Which of the seven strdup calls of one copy would succeed. */
  datatype Alloc = Alloc(apn: bool, protocol: bool, roamingProtocol: bool, username: bool,
                         password: bool, mvnoType: bool, mvnoMatchData: bool)

  predicate Fits(src: CString, granted: bool) { src.Null? || granted }

  /** strdup of a non-NULL string; the flag says whether the copy could be made. */
  function DupOrNull(src: CString, granted: bool): (r: (CString, bool))
    ensures r.1 <==> src == Null || granted
    ensures r.1 ==> r.0 == src
  {
    if src.Null? then (Null, true) else if granted then (Text(src.chars), true) else (Null, false)
  }

  /** A copy is exact, NULL members included, and is refused exactly when a needed allocation fails. */
  function CopyIa(src: Payload, a: Alloc): (r: Option<Payload>)
    ensures r.Some? ==> r.value == src
    ensures r.Some? <==>
            && Fits(src.apn, a.apn) && Fits(src.protocol, a.protocol)
            && Fits(src.roamingProtocol, a.roamingProtocol) && Fits(src.username, a.username)
            && Fits(src.password, a.password) && Fits(src.mvnoType, a.mvnoType)
            && Fits(src.mvnoMatchData, a.mvnoMatchData)
  {
    var apn := DupOrNull(src.apn, a.apn);
    var protocol := DupOrNull(src.protocol, a.protocol);
    var roaming := DupOrNull(src.roamingProtocol, a.roamingProtocol);
    var username := DupOrNull(src.username, a.username);
    var password := DupOrNull(src.password, a.password);
    var mvnoType := DupOrNull(src.mvnoType, a.mvnoType);
    var mvnoMatch := DupOrNull(src.mvnoMatchData, a.mvnoMatchData);
    if apn.1 && protocol.1 && roaming.1 && username.1 && password.1 && mvnoType.1 && mvnoMatch.1 then
      Some(Payload(apn.0, protocol.0, roaming.0, src.authtype, username.0, password.0,
                   src.supportedTypesBitmask, src.bearerBitmask, src.modemCognitive, src.mtu,
                   mvnoType.0, mvnoMatch.0, src.canHandleIms))
    else None
  }

  // ---------------------------------------------------------------- locked state

  datatype Ia = Ia(
    cache: seq<Option<Payload>>,
    pending: seq<bool>,
    inFlight: bool,
    deadline: int,
    current: nat,
    outstanding: seq<bool>,
    lastIssue: Option<int>,
    nextSocket: nat)

  predicate Shape(s: Ia)
  {
    && |s.cache| == |s.pending| == SIM_COUNT
    && |s.outstanding| == TOKEN_SLOTS
    && s.current < TOKEN_SLOTS && s.nextSocket < SIM_COUNT
  }

  /** cacheInitialAttachApn, for `data` NULL when None. */
  function CacheApn(s: Ia, socket: int, data: Option<Payload>, datalen: nat, a: Alloc): Ia
    requires Shape(s)
  {
    if Cacheable(socket, data, datalen, a) then s.(cache := s.cache[socket := data]) else s
  }

  predicate Cacheable(socket: int, data: Option<Payload>, datalen: nat, a: Alloc)
  {
    ValidSocket(socket) && data.Some? && datalen == PAYLOAD_BYTES && CopyIa(data.value, a).Some?
  }

  predicate RecordsReset(s: Ia, code: int, socket: int)
    requires Shape(s)
  {
    code == UNSOL_RESET_ATTACH_APN && ValidSocket(socket) && s.cache[socket].Some?
  }

  /** The locked part of unsolHook once the hooks are active. */
  function NoteReset(s: Ia, code: int, socket: int): Ia
    requires Shape(s)
  {
    if RecordsReset(s, code, socket) then s.(pending := s.pending[socket := true]) else s
  }

  /** The locked part of completeHook for synthetic token `index`. */
  function NoteCompletion(s: Ia, index: nat): Ia
    requires Shape(s) && index < TOKEN_SLOTS
  {
    var freed := s.(outstanding := s.outstanding[index := false]);
    if s.outstanding[index] && s.inFlight && index == s.current then Release(freed) else freed
  }

  function Release(s: Ia): Ia { s.(inFlight := false, deadline := 0) }

  // ---------------------------------------------------------------- worker

  /** The four clock readings one region may take, in program order; None is a failed call. */
  datatype Clock = Clock(afterWait: Option<int>, now: Option<int>, issuedAt: Option<int>, recorded: Option<int>)

  /** Where a region ends: blocked, asleep, or having made an attempt. */
  datatype Outcome =
    | Idle
    | TimedWait
    | Sleep(until: Option<int>)
    | Rejected(socket: nat)
    | OutOfMemory(socket: nat)
    | Issued(socket: nat, token: nat, payload: Payload)

  predicate Attempt(o: Outcome) { o.Rejected? || o.OutOfMemory? || o.Issued? }

  function AfterTimedWait(s: Ia, now: Option<int>): Ia
  {
    if s.inFlight && (now.None? || now.value >= s.deadline) then Release(s) else s
  }

  function Ready(s: Ia): (r: seq<bool>)
    requires Shape(s)
    ensures |r| == SIM_COUNT
    ensures forall i :: 0 <= i < SIM_COUNT ==> (r[i] <==> s.pending[i] && s.cache[i].Some?)
  {
    seq(SIM_COUNT, i requires 0 <= i < SIM_COUNT => s.pending[i] && s.cache[i].Some?)
  }

  function PickSocket(s: Ia): Option<nat>
    requires Shape(s)
  {
    CyclicFirst(Ready(s), s.nextSocket, 0)
  }

  function Free(s: Ia): (r: seq<bool>)
    requires Shape(s)
    ensures |r| == TOKEN_SLOTS
    ensures forall i :: 0 <= i < TOKEN_SLOTS ==> (r[i] <==> !s.outstanding[i])
  {
    seq(TOKEN_SLOTS, i requires 0 <= i < TOKEN_SLOTS => !s.outstanding[i])
  }

  function PickToken(s: Ia): Option<nat>
    requires Shape(s)
  {
    CyclicFirst(Free(s), (s.current + 1) % TOKEN_SLOTS, 0)
  }

  /** Rate limiter: how the worker must sleep before attempting, if at all. */
  function MustSleep(s: Ia, now: Option<int>): Option<Outcome>
  {
    if now.None? then Some(Sleep(None))
    else if s.lastIssue.Some?
         && s.lastIssue.value + MIN_INTERVAL_NS > now.value
         && s.lastIssue.value + MIN_INTERVAL_NS != 0
    then Some(Sleep(Some(s.lastIssue.value + MIN_INTERVAL_NS)))
    else None
  }

  function DeadlineFrom(issuedAt: Option<int>): int
  {
    if issuedAt.Some? then issuedAt.value + INFLIGHT_TIMEOUT_NS else 0
  }

  /** One attempt for ready socket `k` with the lock held. */
  function TryIssue(s: Ia, k: nat, c: Clock, a: Alloc): (Ia, Outcome)
    requires Shape(s) && k < SIM_COUNT && s.cache[k].Some?
  {
    var token := PickToken(s);
    if token.None? then
      (s.(pending := s.pending[k := false], lastIssue := c.recorded), Rejected(k))
    else
      var copy := CopyIa(s.cache[k].value, a);
      if copy.None? then (s.(lastIssue := c.recorded), OutOfMemory(k))
      else
        (s.(pending := s.pending[k := false],
            inFlight := true,
            current := token.value,
            outstanding := s.outstanding[token.value := true],
            deadline := DeadlineFrom(c.issuedAt),
            nextSocket := (k + 1) % SIM_COUNT,
            lastIssue := c.recorded),
         Issued(k, token.value, copy.value))
  }

  /** The slot as the worker sees it once it has looked at the deadline. */
  function Settle(s: Ia, waited: bool, c: Clock): Ia
  {
    var s1 := if waited then AfterTimedWait(s, c.afterWait) else s;
    if s1.inFlight && s1.deadline == 0 then s1.(inFlight := false) else s1
  }

  /** iaWorker from taking the lock (or waking in the timed wait) to giving it up. */
  function WorkerRegion(s: Ia, waited: bool, c: Clock, a: Alloc): (Ia, Outcome)
    requires Shape(s)
  {
    var s2 := Settle(s, waited, c);
    if s2.inFlight then (s2, TimedWait)
    else
      var k := PickSocket(s2);
      if k.None? then (s2, Idle)
      else
        var sleep := MustSleep(s2, c.now);
        if sleep.Some? then (s2, sleep.value) else TryIssue(s2, k.value, c, a)
  }

  // ---------------------------------------------------------------- runs

  datatype Request = Request(token: nat, socket: nat, payload: Payload)

  /** Between lock regions the worker may be in the timed wait, or handing its newest request over. */
  datatype Pc = Top | Waiting | Handing

  /** History: request ids are positions in `issues`; `live` holds those not yet completed,
      `owner` the live request of each token. */
  datatype Hist = Hist(
    issues: seq<Request>,
    live: set<nat>,
    owner: seq<Option<nat>>,
    resets: seq<nat>,
    rejections: seq<nat>,
    accepted: seq<seq<Payload>>,
    attempts: seq<int>,
    lastRead: int)

  datatype Sys = Sys(ia: Ia, pc: Pc, hist: Hist)

  datatype Action =
    | Cache(socket: int, data: Option<Payload>, datalen: nat, alloc: Alloc)
    | Unsol(code: int, socket: int)
    | Complete(id: nat)
    | Worker(clock: Clock, workerAlloc: Alloc)
    | Handoff

  function Init(): Sys
  {
    Sys(Ia([None, None], [false, false], false, 0, 0, seq(TOKEN_SLOTS, _ => false), None, 0),
        Top, Hist([], {}, seq(TOKEN_SLOTS, _ => None), [0, 0], [0, 0], [[], []], [], 0))
  }

  predicate SysShape(s: Sys)
  {
    && Shape(s.ia)
    && |s.hist.resets| == |s.hist.rejections| == |s.hist.accepted| == SIM_COUNT
    && |s.hist.owner| == TOKEN_SLOTS
    && (forall i :: 0 <= i < |s.hist.issues| ==> s.hist.issues[i].token < TOKEN_SLOTS)
    && (forall id :: id in s.hist.live ==> id < |s.hist.issues|)
    && (s.pc.Handing? ==> s.hist.issues != [] && |s.hist.issues| - 1 in s.hist.live)
  }

  /** The vendor completes only what it holds, once; the worker runs only between hand-offs. */
  predicate Enabled(s: Sys, a: Action)
  {
    match a
    case Complete(id) => id in s.hist.live && !(s.pc.Handing? && id == |s.hist.issues| - 1)
    case Worker(_, _) => !s.pc.Handing?
    case Handoff => s.pc.Handing?
    case _ => true
  }

  function Appended(attempts: seq<int>, t: Option<int>): seq<int>
  {
    if t.Some? then attempts + [t.value] else attempts
  }

  function Record(s: Sys, o: Outcome, c: Clock): Hist
    requires SysShape(s) && (o.Issued? ==> o.token < TOKEN_SLOTS)
  {
    var h := s.hist.(lastRead := if c.recorded.Some? then c.recorded.value else s.hist.lastRead);
    match o
    case Issued(k, token, payload) =>
      h.(issues := h.issues + [Request(token, k, payload)],
         live := h.live + {|h.issues|},
         owner := h.owner[token := Some(|h.issues|)],
         attempts := Appended(h.attempts, c.recorded))
    case Rejected(k) =>
      if k < SIM_COUNT then
        h.(rejections := h.rejections[k := h.rejections[k] + 1],
           attempts := Appended(h.attempts, c.recorded))
      else h
    case OutOfMemory(k) => h.(attempts := Appended(h.attempts, c.recorded))
    case _ => h
  }

  function AfterRegion(s: Sys, ia: Ia, o: Outcome, c: Clock): Sys
    requires SysShape(s) && (o.Issued? ==> o.token < TOKEN_SLOTS)
  {
    Sys(ia, if o.Issued? then Handing else if o.TimedWait? then Waiting else Top, Record(s, o, c))
  }

  function Next(s: Sys, a: Action): Sys
    requires SysShape(s) && Enabled(s, a)
  {
    match a
    case Cache(k, data, len, alloc) =>
      var ia := CacheApn(s.ia, k, data, len, alloc);
      if Cacheable(k, data, len, alloc)
      then s.(ia := ia, hist := s.hist.(accepted := s.hist.accepted[k := s.hist.accepted[k] + [data.value]]))
      else s.(ia := ia)
    case Unsol(code, k) =>
      var ia := NoteReset(s.ia, code, k);
      if RecordsReset(s.ia, code, k)
      then s.(ia := ia,
              hist := s.hist.(resets := s.hist.resets[k := s.hist.resets[k] + 1]))
      else s.(ia := ia)
    case Complete(id) =>
      s.(ia := NoteCompletion(s.ia, s.hist.issues[id].token),
         hist := s.hist.(live := s.hist.live - {id}, owner := s.hist.owner[s.hist.issues[id].token := None]))
    case Worker(c, alloc) =>
      var (ia, o) := WorkerRegion(s.ia, s.pc.Waiting?, c, alloc);
      AfterRegion(s, ia, o, c)
    case Handoff => s.(pc := Top)
  }

  // ---------------------------------------------------------------- token pool and single flight

  /** Every live request owns its token, and a token is outstanding exactly while it is owned. */
  ghost predicate TokenInv(s: Sys)
  {
    && SysShape(s)
    && (forall x :: x in s.hist.live ==> s.hist.owner[s.hist.issues[x].token] == Some(x))
    && (forall t :: 0 <= t < TOKEN_SLOTS && s.hist.owner[t].Some? ==>
          s.hist.owner[t].value in s.hist.live && s.hist.issues[s.hist.owner[t].value].token == t)
    && (forall t :: 0 <= t < TOKEN_SLOTS ==> s.ia.outstanding[t] == s.hist.owner[t].Some?)
    && (s.ia.inFlight ==>
          && s.hist.issues != []
          && |s.hist.issues| - 1 in s.hist.live
          && s.hist.issues[|s.hist.issues| - 1].token == s.ia.current)
  }

  /** What an attempt for socket `k` may do to the locked state. */
  predicate AttemptEffect(s: Ia, s': Ia, o: Outcome, c: Clock)
    requires Shape(s)
  {
    && s'.lastIssue == c.recorded
    && match o
       case Issued(k, token, payload) =>
         && k < SIM_COUNT && s.cache[k] == Some(payload)
         && token < TOKEN_SLOTS && !s.outstanding[token]
         && s'.outstanding == s.outstanding[token := true] && s'.current == token
         && s'.inFlight && s'.deadline == DeadlineFrom(c.issuedAt)
         && s'.pending == s.pending[k := false] && s'.nextSocket == (k + 1) % SIM_COUNT
       case Rejected(k) =>
         && k < SIM_COUNT && (forall t :: 0 <= t < TOKEN_SLOTS ==> s.outstanding[t])
         && KeepsTokens(s, s') && s'.pending == s.pending[k := false]
       case OutOfMemory(k) =>
         k < SIM_COUNT && KeepsTokens(s, s') && s'.pending == s.pending
       case _ => false
  }

  predicate KeepsTokens(s: Ia, s': Ia)
  {
    && s'.outstanding == s.outstanding && s'.current == s.current && s'.nextSocket == s.nextSocket
    && (s'.inFlight ==> s.inFlight && s'.deadline == s.deadline)
  }

  lemma TryIssueFacts(s: Ia, k: nat, c: Clock, a: Alloc)
    requires Shape(s) && k < SIM_COUNT && s.cache[k].Some?
    ensures var (s', o) := TryIssue(s, k, c, a);
            Shape(s') && s'.cache == s.cache && Attempt(o) && AttemptEffect(s, s', o, c) && o.socket == k
  {
    var token := PickToken(s);
    if token.None? {
      assert forall t :: 0 <= t < TOKEN_SLOTS ==> !Free(s)[t];
    }
  }

  /** A complete summary of a region; attempts go to the ready socket nearest `nextSocket`. */
  predicate RegionEffect(s: Ia, s': Ia, o: Outcome, c: Clock)
    requires Shape(s)
  {
    && Shape(s') && s'.cache == s.cache
    && (!Attempt(o) ==> KeepsTokens(s, s') && s'.pending == s.pending && s'.lastIssue == s.lastIssue)
    && (Attempt(o) ==>
          && AttemptEffect(s, s', o, c)
          && s.pending[o.socket]
          && c.now.Some? && MustSleep(s, c.now).None?
          && forall j :: 0 <= j < SIM_COUNT && s.pending[j] && s.cache[j].Some? ==>
              Distance(s.nextSocket, o.socket, SIM_COUNT) <= Distance(s.nextSocket, j, SIM_COUNT))
  }

  lemma SettleFacts(s: Ia, waited: bool, c: Clock)
    requires Shape(s)
    ensures var s2 := Settle(s, waited, c);
            && Shape(s2) && KeepsTokens(s, s2)
            && s2.cache == s.cache && s2.pending == s.pending && s2.lastIssue == s.lastIssue
  {
  }

  lemma PickSocketFacts(s: Ia)
    requires Shape(s) && PickSocket(s).Some?
    ensures var k := PickSocket(s).value;
            && k < SIM_COUNT && s.pending[k] && s.cache[k].Some?
            && forall j :: 0 <= j < SIM_COUNT && s.pending[j] && s.cache[j].Some? ==>
                Distance(s.nextSocket, k, SIM_COUNT) <= Distance(s.nextSocket, j, SIM_COUNT)
  {
    assert forall j :: 0 <= j < SIM_COUNT && s.pending[j] && s.cache[j].Some? ==> Ready(s)[j];
  }

  lemma RegionFacts(s: Ia, waited: bool, c: Clock, a: Alloc)
    requires Shape(s)
    ensures var (s', o) := WorkerRegion(s, waited, c, a); RegionEffect(s, s', o, c)
  {
    SettleFacts(s, waited, c);
    AttemptFacts(s, Settle(s, waited, c), c, a);
  }

  /** The region after `Settle`, which changed nothing an attempt depends on. */
  lemma AttemptFacts(s: Ia, s2: Ia, c: Clock, a: Alloc)
    requires Shape(s) && Shape(s2) && KeepsTokens(s, s2)
    requires s2.cache == s.cache && s2.pending == s.pending && s2.lastIssue == s.lastIssue
    ensures !s2.inFlight && PickSocket(s2).Some? && MustSleep(s2, c.now).None? ==>
              var (s', o) := TryIssue(s2, PickSocket(s2).value, c, a);
              RegionEffect(s, s', o, c) && Attempt(o)
    ensures RegionEffect(s, s2, Idle, c)
  {
    if !s2.inFlight && PickSocket(s2).Some? && MustSleep(s2, c.now).None? {
      PickSocketFacts(s2);
      TryIssueFacts(s2, PickSocket(s2).value, c, a);
    }
  }

  /** A fresh request on a free token keeps the pool exact. */
  lemma TokenInvIssue(s: Sys, s': Sys, r: Request)
    requires TokenInv(s) && SysShape(s')
    requires r.token < TOKEN_SLOTS && !s.ia.outstanding[r.token]
    requires s'.ia.outstanding == s.ia.outstanding[r.token := true] && s'.ia.current == r.token
    requires s'.hist.issues == s.hist.issues + [r] && s'.hist.live == s.hist.live + {|s.hist.issues|}
    requires s'.hist.owner == s.hist.owner[r.token := Some(|s.hist.issues|)]
    ensures TokenInv(s')
  {
  }

  lemma RegionShape(s: Sys, ia: Ia, o: Outcome, c: Clock)
    requires SysShape(s) && !s.pc.Handing? && RegionEffect(s.ia, ia, o, c)
    ensures SysShape(AfterRegion(s, ia, o, c))
  {
    var s' := AfterRegion(s, ia, o, c);
    if o.Issued? {
      assert s'.hist.issues == s.hist.issues + [Request(o.token, o.socket, o.payload)];
    }
  }

  lemma TokenInvRegion(s: Sys, ia: Ia, o: Outcome, c: Clock)
    requires TokenInv(s) && !s.pc.Handing? && RegionEffect(s.ia, ia, o, c)
    ensures TokenInv(AfterRegion(s, ia, o, c))
  {
    RegionShape(s, ia, o, c);
    if o.Issued? {
      TokenInvIssue(s, AfterRegion(s, ia, o, c), Request(o.token, o.socket, o.payload));
    }
  }

  lemma WorkerStep(s: Sys, c: Clock, alloc: Alloc) returns (ia: Ia, o: Outcome)
    requires SysShape(s) && !s.pc.Handing?
    ensures (ia, o) == WorkerRegion(s.ia, s.pc.Waiting?, c, alloc)
    ensures RegionEffect(s.ia, ia, o, c)
    ensures Next(s, Worker(c, alloc)) == AfterRegion(s, ia, o, c)
  {
    RegionFacts(s.ia, s.pc.Waiting?, c, alloc);
    ia, o := WorkerRegion(s.ia, s.pc.Waiting?, c, alloc).0, WorkerRegion(s.ia, s.pc.Waiting?, c, alloc).1;
  }

  lemma TokenInvNext(s: Sys, a: Action)
    requires TokenInv(s) && Enabled(s, a)
    ensures TokenInv(Next(s, a))
  {
    if a.Worker? {
      var ia, o := WorkerStep(s, a.clock, a.workerAlloc);
      TokenInvRegion(s, ia, o, a.clock);
    }
  }

  // ---------------------------------------------------------------- cache, accounting, fairness

  function IssuesTo(issues: seq<Request>, k: nat): nat
  {
    if issues == [] then 0
    else IssuesTo(issues[..|issues| - 1], k) + if issues[|issues| - 1].socket == k then 1 else 0
  }

  lemma IssuesToAppend(issues: seq<Request>, r: Request, k: nat)
    ensures IssuesTo(issues + [r], k) == IssuesTo(issues, k) + if r.socket == k then 1 else 0
  {
    assert (issues + [r])[..|issues|] == issues;
  }

  function Latest(accepted: seq<Payload>): Option<Payload>
  {
    if accepted == [] then None else Some(accepted[|accepted| - 1])
  }

  /** Per socket: the cache is the latest accepted payload, pending needs a cache, and every
      attempt that cleared `pending` is paid for by a recorded reset. */
  ghost predicate BookInv(s: Sys)
  {
    && SysShape(s)
    && forall k: nat :: k < SIM_COUNT ==> SocketInv(s, k)
  }

  ghost predicate SocketInv(s: Sys, k: nat)
    requires SysShape(s) && k < SIM_COUNT
  {
    && s.ia.cache[k] == Latest(s.hist.accepted[k])
    && (s.ia.pending[k] ==> s.ia.cache[k].Some?)
    && IssuesTo(s.hist.issues, k) + s.hist.rejections[k] + (if s.ia.pending[k] then 1 else 0) <= s.hist.resets[k]
  }

  lemma BookInvRegion(s: Sys, ia: Ia, o: Outcome, c: Clock)
    requires BookInv(s) && !s.pc.Handing? && RegionEffect(s.ia, ia, o, c)
    ensures BookInv(AfterRegion(s, ia, o, c))
  {
    var s' := AfterRegion(s, ia, o, c);
    RegionShape(s, ia, o, c);
    forall k: nat | k < SIM_COUNT ensures SocketInv(s', k) {
      assert SocketInv(s, k);
      if o.Issued? {
        IssuesToAppend(s.hist.issues, Request(o.token, o.socket, o.payload), k);
        assert SocketInv(s, o.socket);
      }
    }
  }

  lemma BookInvNext(s: Sys, a: Action)
    requires BookInv(s) && Enabled(s, a)
    ensures BookInv(Next(s, a))
  {
    if a.Worker? {
      var ia, o := WorkerStep(s, a.clock, a.workerAlloc);
      BookInvRegion(s, ia, o, a.clock);
    } else {
      forall k: nat | k < SIM_COUNT ensures SocketInv(Next(s, a), k) { assert SocketInv(s, k); }
    }
  }

  // ---------------------------------------------------------------- clock

  /** A working monotonic clock: every call succeeds and no reading precedes an earlier one. */
  ghost predicate WorkingClock(s: Sys, a: Action)
  {
    a.Worker? ==>
      && a.clock.afterWait.Some? && a.clock.now.Some? && a.clock.issuedAt.Some? && a.clock.recorded.Some?
      && s.hist.lastRead <= a.clock.afterWait.value <= a.clock.now.value
      && a.clock.now.value <= a.clock.issuedAt.value <= a.clock.recorded.value
  }

  ghost predicate RateInv(s: Sys)
  {
    && SysShape(s)
    && 0 <= s.hist.lastRead
    && (s.hist.attempts == [] ==> s.ia.lastIssue.None?)
    && (s.hist.attempts != [] ==>
          && s.ia.lastIssue == Some(s.hist.attempts[|s.hist.attempts| - 1])
          && 0 <= s.ia.lastIssue.value <= s.hist.lastRead)
    && (forall i :: 0 < i < |s.hist.attempts| ==> s.hist.attempts[i - 1] + MIN_INTERVAL_NS <= s.hist.attempts[i])
    && (s.ia.inFlight ==> s.ia.deadline > 0)
  }

  lemma RateInvNext(s: Sys, a: Action)
    requires RateInv(s) && Enabled(s, a) && WorkingClock(s, a)
    ensures RateInv(Next(s, a))
  {
    if a.Worker? {
      var ia, o := WorkerStep(s, a.clock, a.workerAlloc);
      RateInvRegion(s, ia, o, a.clock);
    }
  }

  lemma RateInvRegion(s: Sys, ia: Ia, o: Outcome, c: Clock)
    requires RateInv(s) && !s.pc.Handing? && RegionEffect(s.ia, ia, o, c)
    requires c.now.Some? && c.issuedAt.Some? && c.recorded.Some?
    requires s.hist.lastRead <= c.now.value <= c.issuedAt.value <= c.recorded.value
    ensures RateInv(AfterRegion(s, ia, o, c))
  {
    RegionShape(s, ia, o, c);
  }

  // ---------------------------------------------------------------- theorems over every run

  ghost predicate Run(states: seq<Sys>, acts: seq<Action>)
  {
    && |states| == |acts| + 1
    && states[0] == Init()
    && forall i :: 0 <= i < |acts| ==> StepAt(states, acts, i)
  }

  ghost predicate StepAt(states: seq<Sys>, acts: seq<Action>, i: nat)
    requires i < |acts| < |states|
  {
    SysShape(states[i]) && Enabled(states[i], acts[i]) && states[i + 1] == Next(states[i], acts[i])
  }

  lemma {:induction false} RunInvariants(states: seq<Sys>, acts: seq<Action>, i: nat)
    requires Run(states, acts) && i < |states|
    ensures TokenInv(states[i]) && BookInv(states[i])
  {
    if i == 0 {
      forall k: nat | k < SIM_COUNT ensures SocketInv(Init(), k) { }
    } else {
      RunInvariants(states, acts, i - 1);
      assert StepAt(states, acts, i - 1);
      TokenInvNext(states[i - 1], acts[i - 1]);
      BookInvNext(states[i - 1], acts[i - 1]);
    }
  }

  /** No two live requests share a token, flags are exact, and the pool bounds the live requests. */
  lemma TokensNeverAlias(states: seq<Sys>, acts: seq<Action>, i: nat)
    requires Run(states, acts) && i < |states|
    ensures var s := states[i];
            && SysShape(s)
            && (forall x, y :: x in s.hist.live && y in s.hist.live && x != y ==>
                  s.hist.issues[x].token != s.hist.issues[y].token)
            && (forall t :: 0 <= t < TOKEN_SLOTS ==>
                  (s.ia.outstanding[t] <==> exists x :: x in s.hist.live && s.hist.issues[x].token == t))
            && |s.hist.live| <= TOKEN_SLOTS
  {
    RunInvariants(states, acts, i);
    var s := states[i];
    LiveCount(s, s.hist.live, set x | x in s.hist.live :: s.hist.issues[x].token);
    PigeonholeBound(set x | x in s.hist.live :: s.hist.issues[x].token, TOKEN_SLOTS);
  }

  lemma {:induction false} LiveCount(s: Sys, ids: set<nat>, tokens: set<nat>)
    requires TokenInv(s) && ids <= s.hist.live && tokens == set x | x in ids :: s.hist.issues[x].token
    ensures |tokens| == |ids|
  {
    if ids != {} {
      var x :| x in ids;
      var rest := set y | y in ids - {x} :: s.hist.issues[y].token;
      LiveCount(s, ids - {x}, rest);
      assert tokens == rest + {s.hist.issues[x].token};
      assert s.hist.issues[x].token !in rest;
    }
  }

  /** A completion ends the wait exactly when it completes the newest request: a late completion of a
      timed-out request never ends its successor's wait. */
  lemma CompletionEndsOnlyItsOwnWait(states: seq<Sys>, acts: seq<Action>, i: nat)
    requires Run(states, acts) && i < |acts| && acts[i].Complete?
    ensures SysShape(states[i + 1])
    ensures var s, s' := states[i], states[i + 1];
            && s.hist.issues != []
            && (s.ia.inFlight && !s'.ia.inFlight <==> s.ia.inFlight && acts[i].id == |s.hist.issues| - 1)
            && (s'.ia.inFlight ==> s'.ia.deadline == s.ia.deadline && s'.ia.outstanding[s'.ia.current])
  {
    RunInvariants(states, acts, i);
    RunInvariants(states, acts, i + 1);
    assert StepAt(states, acts, i);
  }

  /** Whatever happens between two points with no issue in between (URC storms included), a slot still
      held carries the deadline latched when its request was issued. */
  lemma {:induction false} DeadlineIsLatched(states: seq<Sys>, acts: seq<Action>, i: nat, j: nat)
    requires Run(states, acts) && i <= j < |states|
    requires |states[i].hist.issues| == |states[j].hist.issues|
    ensures states[j].ia.inFlight ==>
              && states[i].ia.inFlight
              && states[j].ia.deadline == states[i].ia.deadline
              && states[j].ia.current == states[i].ia.current
    decreases j - i
  {
    if i < j {
      IssuesOnlyGrow(states, acts, i, j - 1);
      IssuesOnlyGrow(states, acts, j - 1, j);
      DeadlineIsLatched(states, acts, i, j - 1);
      assert StepAt(states, acts, j - 1);
      if acts[j - 1].Worker? {
        var ia, o := WorkerStep(states[j - 1], acts[j - 1].clock, acts[j - 1].workerAlloc);
      }
    }
  }

  lemma {:induction false} IssuesOnlyGrow(states: seq<Sys>, acts: seq<Action>, i: nat, j: nat)
    requires Run(states, acts) && i <= j < |states|
    ensures states[i].hist.issues <= states[j].hist.issues
    decreases j - i
  {
    if i < j {
      IssuesOnlyGrow(states, acts, i, j - 1);
      assert StepAt(states, acts, j - 1);
    }
  }

  /** A worker check in the timed wait frees the slot exactly when the clock has reached the deadline. */
  lemma CheckFreesAtDeadline(states: seq<Sys>, acts: seq<Action>, i: nat)
    requires Run(states, acts) && i < |acts| && acts[i].Worker?
    requires forall j :: 0 <= j <= i ==> WorkingClock(states[j], acts[j])
    requires states[i].pc.Waiting? && states[i].ia.inFlight
    ensures WorkingClock(states[i], acts[i])
    ensures var s, s' := states[i], states[i + 1];
            (!s'.ia.inFlight || |s'.hist.issues| > |s.hist.issues|)
            <==> acts[i].clock.afterWait.value >= s.ia.deadline
  {
    RateInvAt(states, acts, i);
    assert StepAt(states, acts, i);
    var ia, o := WorkerStep(states[i], acts[i].clock, acts[i].workerAlloc);
  }

  lemma {:induction false} RateInvAt(states: seq<Sys>, acts: seq<Action>, i: nat)
    requires Run(states, acts) && i < |states|
    requires forall j :: 0 <= j < i ==> WorkingClock(states[j], acts[j])
    ensures RateInv(states[i])
  {
    if i > 0 {
      RateInvAt(states, acts, i - 1);
      assert StepAt(states, acts, i - 1);
      RateInvNext(states[i - 1], acts[i - 1]);
    }
  }

  /** With a working clock, every attempt is recorded, and any two are at least the interval apart. */
  lemma AttemptsAreRateLimited(states: seq<Sys>, acts: seq<Action>, i: nat)
    requires Run(states, acts) && i < |acts| && acts[i].Worker?
    requires forall j :: 0 <= j <= i ==> WorkingClock(states[j], acts[j])
    ensures SysShape(states[i]) && WorkingClock(states[i], acts[i])
    ensures var (s, s') := (states[i], states[i + 1]);
            var o := WorkerRegion(s.ia, s.pc.Waiting?, acts[i].clock, acts[i].workerAlloc).1;
            && s'.hist.attempts == s.hist.attempts + (if Attempt(o) then [acts[i].clock.recorded.value] else [])
            && forall p, q :: 0 <= p < q < |s'.hist.attempts| ==>
                s'.hist.attempts[p] + MIN_INTERVAL_NS <= s'.hist.attempts[q]
  {
    RateInvAt(states, acts, i + 1);
    RateInvAt(states, acts, i);
    assert StepAt(states, acts, i);
    var ia, o := WorkerStep(states[i], acts[i].clock, acts[i].workerAlloc);
    GapsAccumulate(states[i + 1].hist.attempts);
  }

  lemma {:induction false} GapsAccumulate(times: seq<int>)
    requires forall i :: 0 < i < |times| ==> times[i - 1] + MIN_INTERVAL_NS <= times[i]
    ensures forall p, q :: 0 <= p < q < |times| ==> times[p] + MIN_INTERVAL_NS <= times[q]
  {
    if |times| > 0 {
      var rest := times[..|times| - 1];
      GapsAccumulate(rest);
      forall p, q | 0 <= p < q < |times| ensures times[p] + MIN_INTERVAL_NS <= times[q] {
        if q == |times| - 1 && p < q - 1 { assert rest[p] + MIN_INTERVAL_NS <= rest[q - 1]; }
        if q < |times| - 1 { assert rest[p] + MIN_INTERVAL_NS <= rest[q]; }
      }
    }
  }

  /** Replays and rejections are paid for by recorded resets, and nothing is pending without a cached payload. */
  lemma ReplaysArePaidByResets(states: seq<Sys>, acts: seq<Action>, i: nat, k: nat)
    requires Run(states, acts) && i < |states| && k < SIM_COUNT
    ensures var s := states[i];
            && SysShape(s)
            && (s.ia.pending[k] ==> s.ia.cache[k].Some?)
            && IssuesTo(s.hist.issues, k) + s.hist.rejections[k] + (if s.ia.pending[k] then 1 else 0)
               <= s.hist.resets[k]
  {
    RunInvariants(states, acts, i);
    assert SocketInv(states[i], k);
  }

  /** Round robin: a socket pending throughout is passed over by at most SIM_COUNT - 1 issues. */
  lemma PendingSocketIsServedInTurn(states: seq<Sys>, acts: seq<Action>, i: nat, j: nat, k: nat)
    requires Run(states, acts) && i <= j < |states| && k < SIM_COUNT
    requires forall m :: i <= m <= j ==> PendingIn(states[m], k)
    ensures |states[j].hist.issues| - |states[i].hist.issues| <= SIM_COUNT - 1
  {
    RunInvariants(states, acts, i);
    TurnsRunDown(states, acts, i, j, k);
  }

  predicate PendingIn(s: Sys, k: nat) { SysShape(s) && k < SIM_COUNT && s.ia.pending[k] }

  /** Issues made so far plus the positions left before `k` is next. */
  function Turns(s: Sys, k: nat): nat
    requires SysShape(s) && k < SIM_COUNT
  {
    |s.hist.issues| + Distance(s.ia.nextSocket, k, SIM_COUNT)
  }

  /** Each issue to another socket brings the round robin at least one position closer to `k`. */
  lemma TurnsRegion(s: Ia, s': Ia, o: Outcome, c: Clock, k: nat)
    requires Shape(s) && RegionEffect(s, s', o, c) && k < SIM_COUNT
    requires s.pending[k] && s.cache[k].Some? && s'.pending[k]
    ensures Distance(s'.nextSocket, k, SIM_COUNT) + (if o.Issued? then 1 else 0) <= Distance(s.nextSocket, k, SIM_COUNT)
  {
  }

  lemma TurnsStep(s: Sys, a: Action, k: nat)
    requires BookInv(s) && Enabled(s, a) && PendingIn(s, k) && SysShape(Next(s, a)) && PendingIn(Next(s, a), k)
    ensures Turns(Next(s, a), k) <= Turns(s, k)
  {
    assert SocketInv(s, k);
    if a.Worker? {
      var ia, o := WorkerStep(s, a.clock, a.workerAlloc);
      TurnsRegion(s.ia, ia, o, a.clock, k);
      assert Next(s, a).ia == ia;
    } else {
      assert Next(s, a).hist.issues == s.hist.issues && Next(s, a).ia.nextSocket == s.ia.nextSocket;
    }
  }

  lemma TurnsAt(states: seq<Sys>, acts: seq<Action>, i: nat, k: nat)
    requires Run(states, acts) && i < |acts| && PendingIn(states[i], k) && PendingIn(states[i + 1], k)
    ensures Turns(states[i + 1], k) <= Turns(states[i], k)
  {
    RunInvariants(states, acts, i);
    assert StepAt(states, acts, i);
    TurnsStep(states[i], acts[i], k);
  }

  lemma {:induction false} TurnsRunDown(states: seq<Sys>, acts: seq<Action>, i: nat, j: nat, k: nat)
    requires Run(states, acts) && i <= j < |states| && k < SIM_COUNT
    requires forall m :: i <= m <= j ==> PendingIn(states[m], k)
    ensures PendingIn(states[i], k) && PendingIn(states[j], k) && Turns(states[j], k) <= Turns(states[i], k)
    decreases j - i
  {
    if i < j {
      TurnsRunDown(states, acts, i, j - 1, k);
      TurnsAt(states, acts, j - 1, k);
    }
  }

  /** An issued request carries the latest payload accepted on its socket, NULL members included. */
  lemma ReplayIsLatestPayload(states: seq<Sys>, acts: seq<Action>, i: nat)
    requires Run(states, acts) && i < |acts|
    ensures |states[i + 1].hist.issues| > |states[i].hist.issues| ==>
              var r := states[i + 1].hist.issues[|states[i].hist.issues|];
              && r.socket < SIM_COUNT && r.token < TOKEN_SLOTS && SysShape(states[i])
              && Some(r.payload) == Latest(states[i].hist.accepted[r.socket])
              && states[i].ia.pending[r.socket] && !states[i].ia.outstanding[r.token]
  {
    RunInvariants(states, acts, i);
    assert StepAt(states, acts, i);
    if acts[i].Worker? {
      var ia, o := WorkerStep(states[i], acts[i].clock, acts[i].workerAlloc);
      if o.Issued? { assert SocketInv(states[i], o.socket); }
    }
  }
}
