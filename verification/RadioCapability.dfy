/**
 The synthetic START / APPLY / FINISH radio-capability transaction of the RIL shim: every GET and SET is
 answered from fixed per-socket values, and a per-socket memory suppresses repeated APPLY indications.
 */
module RadioCapability {
  import opened Common
  import opened Sockets

  const RC_BYTES: nat := 84

  const RAF_GPRS: int := 0x2
  const RAF_UMTS: int := 0x8
  const RAF_LTE: int := 0x4000
  const RAF_GSM: int := 0x10000

  const RC_VERSION: int := 1
  const PHASE_CONFIGURED: int := 0
  const PHASE_START: int := 1
  const PHASE_APPLY: int := 2
  const PHASE_UNSOL_RSP: int := 3
  const PHASE_FINISH: int := 4
  const STATUS_NONE: int := 0
  const STATUS_SUCCESS: int := 1

  datatype Capability = Capability(version: int, session: int, phase: int, rat: int, uuid: string, status: int)

  /** The request's data pointer: NULL, or a structure with a claimed length. */
  datatype Data = NoData | Data(length: nat, capability: Capability)

  datatype Request =
    | Get(token: nat, socket: int)
    | Set(token: nat, socket: int, data: Data)
    | Other(token: nat, socket: int)

  datatype Output =
    | Completed(token: nat, response: Option<Capability>)
    | Indicated(socket: int, capability: Capability)
    | Forwarded(token: nat)

  /** What the hardware behind a socket can do; never changes. */
  function NativeRaf(socket: int): int
    requires ValidSocket(socket)
  {
    if socket == 0 then RAF_GSM + RAF_GPRS + RAF_UMTS + RAF_LTE else RAF_GSM + RAF_UMTS
  }

  function ModemUuid(socket: int): string
    requires ValidSocket(socket)
  {
    if socket == 0 then "modem_sys1_ps1" else "modem_sys1_ps2"
  }

  /** fillFixedRadioCapability. */
  function Fill(socket: int, session: int, phase: int, status: int): Option<Capability>
  {
    if ValidSocket(socket)
    then Some(Capability(RC_VERSION, session, phase, NativeRaf(socket), ModemUuid(socket), status))
    else None
  }

  /** sLastApplySession together with its validity flag. */
  datatype State = State(lastApply: seq<Option<int>>)

  predicate Shape(s: State) { |s.lastApply| == SIM_COUNT }

  function Init(): State { State([None, None]) }

  /** The request is a SET the shim accepts. */
  predicate AcceptedSet(r: Request)
  {
    && r.Set? && r.data.Data? && r.data.length == 84 && 0 <= r.socket < 2
    && r.data.capability.phase in {PHASE_START, PHASE_APPLY, PHASE_FINISH}
  }

  function HandleSet(s: State, r: Request): (State, seq<Output>)
    requires Shape(s) && r.Set?
  {
    if r.data.NoData? || r.data.length != RC_BYTES
       || (r.data.capability.phase != PHASE_START && r.data.capability.phase != PHASE_APPLY
           && r.data.capability.phase != PHASE_FINISH)
       || Fill(r.socket, r.data.capability.session, r.data.capability.phase, STATUS_SUCCESS).None?
    then (s, [Completed(r.token, None)])
    else
      var asked := r.data.capability;
      var response := Fill(r.socket, asked.session, asked.phase, STATUS_SUCCESS).value;
      var s1 := if asked.phase == PHASE_START then State(s.lastApply[r.socket := None]) else s;
      var status := if asked.phase == PHASE_FINISH then asked.status else STATUS_SUCCESS;
      var done := Completed(r.token, Some(response.(status := status)));
      if asked.phase != PHASE_APPLY || s1.lastApply[r.socket] == Some(asked.session) then (s1, [done])
      else
        (State(s1.lastApply[r.socket := Some(asked.session)]),
         [done, Indicated(r.socket, Fill(r.socket, asked.session, PHASE_UNSOL_RSP, STATUS_SUCCESS).value)])
  }

  /** onRequestShim, for the radio-capability requests. */
  function Handle(s: State, r: Request): (State, seq<Output>)
    requires Shape(s)
  {
    match r
    case Get(token, socket) => (s, [Completed(token, Fill(socket, 0, PHASE_CONFIGURED, STATUS_NONE))])
    case Set(_, _, _) => HandleSet(s, r)
    case Other(token, _) => (s, [Forwarded(token)])
  }

  /** The state after serving a sequence of requests. */
  function After(rs: seq<Request>): (s: State)
    ensures Shape(s)
    decreases |rs|
  {
    if rs == [] then Init() else Handle(After(rs[..|rs| - 1]), rs[|rs| - 1]).0
  }

  /** The session of the latest accepted APPLY on `socket`, unless an accepted START came after it:
      defined on the request history alone. */
  function PreviousApply(rs: seq<Request>, socket: int): Option<int>
    decreases |rs|
  {
    if rs == [] then None
    else
      var r := rs[|rs| - 1];
      if AcceptedSet(r) && r.socket == socket && r.data.capability.phase == PHASE_START then None
      else if AcceptedSet(r) && r.socket == socket && r.data.capability.phase == PHASE_APPLY
      then Some(r.data.capability.session)
      else PreviousApply(rs[..|rs| - 1], socket)
  }

  /** The shim's two words of state per socket are exactly that function of the whole history. */
  lemma {:induction false} MemoryIsHistory(rs: seq<Request>, socket: int)
    requires ValidSocket(socket)
    ensures After(rs).lastApply[socket] == PreviousApply(rs, socket)
    decreases |rs|
  {
    if rs != [] { MemoryIsHistory(rs[..|rs| - 1], socket); }
  }

  /** GSM, GPRS, UMTS and LTE behind the first socket, GSM and UMTS behind the second. */
  predicate Describes(c: Capability, socket: int)
  {
    && c.version == 1
    && (if socket == 0 then c.rat == 0x1400A && c.uuid == "modem_sys1_ps1"
        else socket == 1 && c.rat == 0x10008 && c.uuid == "modem_sys1_ps2")
  }

  /** After any history, a GET or SET is completed exactly once, first, and never forwarded; a successful
      response describes the socket's hardware; and an indication follows exactly an accepted APPLY that is the
      first since its socket's last accepted START or that changes the session. */
  lemma EveryRequestAnsweredOnce(rs: seq<Request>, r: Request)
    requires !r.Other?
    ensures var outs := Handle(After(rs), r).1;
            && 1 <= |outs| <= 2
            && outs[0].Completed? && outs[0].token == r.token
            && (outs[0].response.Some? <==> (if r.Get? then ValidSocket(r.socket) else AcceptedSet(r)))
            && (outs[0].response.Some? ==> Describes(outs[0].response.value, r.socket))
            && (|outs| == 2 <==>
                  && AcceptedSet(r) && r.data.capability.phase == PHASE_APPLY
                  && PreviousApply(rs, r.socket) != Some(r.data.capability.session))
            && (|outs| == 2 ==>
                  && outs[1].Indicated? && outs[1].socket == r.socket && Describes(outs[1].capability, r.socket)
                  && outs[1].capability.session == r.data.capability.session
                  && outs[1].capability.phase == PHASE_UNSOL_RSP && outs[1].capability.status == STATUS_SUCCESS)
            && (AcceptedSet(r) ==>
                  && outs[0].response.value.session == r.data.capability.session
                  && outs[0].response.value.phase == r.data.capability.phase
                  && outs[0].response.value.status ==
                     if r.data.capability.phase == PHASE_FINISH then r.data.capability.status else STATUS_SUCCESS)
            && (r.Get? && ValidSocket(r.socket) ==>
                  outs[0].response.value.phase == PHASE_CONFIGURED && outs[0].response.value.status == STATUS_NONE
                  && outs[0].response.value.session == 0)
  {
    if ValidSocket(r.socket) { MemoryIsHistory(rs, r.socket); }
  }

  /** Indications one request adds, and a whole transaction: START then APPLY always announces, even when a
      restarted framework reuses a session number. */
  lemma ApplyAfterStartAlwaysIndicates(rs: seq<Request>, start: Request, apply: Request)
    requires AcceptedSet(start) && start.data.capability.phase == PHASE_START
    requires AcceptedSet(apply) && apply.data.capability.phase == PHASE_APPLY && apply.socket == start.socket
    ensures |Handle(After(rs + [start]), apply).1| == 2
    ensures |Handle(After(rs + [start] + [apply]), apply).1| == 1
  {
    assert (rs + [start])[..|rs|] == rs;
    EveryRequestAnsweredOnce(rs + [start], apply);
    EveryRequestAnsweredOnce(rs + [start] + [apply], apply);
  }

  /** Every other request is forwarded exactly once, and leaves no trace. */
  lemma OtherRequestsAreForwarded(rs: seq<Request>, r: Request, socket: int)
    requires r.Other? && ValidSocket(socket)
    ensures Handle(After(rs), r).1 == [Forwarded(r.token)]
    ensures After(rs + [r]).lastApply[socket] == PreviousApply(rs, socket)
  {
    assert (rs + [r])[..|rs|] == rs;
    MemoryIsHistory(rs, socket);
  }

  // ---------------------------------------------------------------- the code, in place

  class CapabilityServer {
    const lastSession: array<int>
    const valid: array<bool>

    ghost predicate Valid()
      reads this
    {
      lastSession.Length == valid.Length == SIM_COUNT
    }

    ghost function View(): (s: State)
      requires Valid()
      reads this, lastSession, valid
      ensures Shape(s)
    {
      State(seq(SIM_COUNT, i requires 0 <= i < SIM_COUNT && Valid() reads this, lastSession, valid =>
              if valid[i] then Some(lastSession[i]) else None))
    }

    constructor ()
      ensures Valid() && fresh(lastSession) && fresh(valid) && View() == Init()
    {
      lastSession := new int[SIM_COUNT](_ => 0);
      valid := new bool[SIM_COUNT](_ => false);
      new;
      assert View().lastApply == [None, None];
    }

    method ResetApplyDedupe(socket: int)
      requires Valid()
      modifies valid
      ensures Valid()
      ensures View() == if ValidSocket(socket) then State(old(View()).lastApply[socket := None]) else old(View())
    {
      if socket < 0 || socket >= SIM_COUNT { return; }
      valid[socket] := false;
      assert View().lastApply == old(View()).lastApply[socket := None];
    }

    method ShouldSendApplyUnsol(socket: int, session: int) returns (send: bool)
      requires Valid()
      modifies lastSession, valid
      ensures Valid()
      ensures send == (ValidSocket(socket) && old(View()).lastApply[socket] != Some(session))
      ensures View() == if send then State(old(View()).lastApply[socket := Some(session)]) else old(View())
    {
      if socket < 0 || socket >= SIM_COUNT { return false; }
      send := !valid[socket] || lastSession[socket] != session;
      if send {
        lastSession[socket] := session;
        valid[socket] := true;
        assert View().lastApply == old(View()).lastApply[socket := Some(session)];
      }
    }

    method OnRequest(r: Request) returns (outs: seq<Output>)
      requires Valid()
      modifies lastSession, valid
      ensures Valid() && (View(), outs) == Handle(old(View()), r)
    {
      if r.Get? { return [Completed(r.token, Fill(r.socket, 0, PHASE_CONFIGURED, STATUS_NONE))]; }
      if r.Other? { return [Forwarded(r.token)]; }
      if r.data.NoData? || r.data.length != RC_BYTES || r.socket < 0 || r.socket >= SIM_COUNT {
        return [Completed(r.token, None)];
      }
      var phase := r.data.capability.phase;
      if phase != PHASE_START && phase != PHASE_APPLY && phase != PHASE_FINISH { return [Completed(r.token, None)]; }
      var asked := r.data.capability;
      var response := Fill(r.socket, asked.session, asked.phase, STATUS_SUCCESS).value;
      if asked.phase == PHASE_START { ResetApplyDedupe(r.socket); }
      if asked.phase == PHASE_FINISH { response := response.(status := asked.status); }
      outs := [Completed(r.token, Some(response))];
      if asked.phase != PHASE_APPLY { return; }
      var send := ShouldSendApplyUnsol(r.socket, asked.session);
      if !send { return; }
      outs := [outs[0], Indicated(r.socket, Fill(r.socket, asked.session, PHASE_UNSOL_RSP, STATUS_SUCCESS).value)];
    }
  }
}
