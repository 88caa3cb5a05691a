/**
 The RIL shim as a whole: hook installation and APN replay running against each other. The installer's
 stores, vendor callbacks, framework requests and the worker interleave freely; callbacks go wherever the
 GOT slot points at that moment.
 */
module RilShim {
  import opened Common
  import opened Sockets
  import R = AttachApnReplay
  import G = GotInstall
  import L = AttachApnLaws

  /** A completion names a framework request, or one of the shim's own live requests. */
  datatype Token = Framework(request: nat) | Synthetic(id: nat)

  datatype Urc = Urc(code: int, socket: int, data: nat)

  datatype Completion = Completion(token: Token, error: int, response: nat)

  /** A call that left the shim or bypassed it, with its target. */
  datatype Call =
    | UnsolCall(target: G.Ptr, urc: Urc)
    | CompleteCall(target: G.Ptr, completion: Completion)
    | RequestCall(socket: int, data: Option<R.Payload>, datalen: nat)

  /** Progress of the one installation that can be under way. */
  datatype Phase = Idle | Opened | Published | Started

  datatype Sys = Sys(got: G.Shim, phase: Phase, replay: R.Sys, log: seq<Call>)

  datatype Action =
    | Begin
    | Unresolved
    | Publish
    | Store(mem: G.Mem)
    | StartWorker
    | Activate
    | Settle(disabled: bool)
    | DeliverUrc(urc: Urc)
    | DeliverCompletion(completion: Completion)
    | SetInitialAttachApn(socket: int, data: Option<R.Payload>, datalen: nat, alloc: R.Alloc)
    | Worker(clock: R.Clock, workerAlloc: R.Alloc)
    | Handoff

  function Init(mem: G.Mem): Sys
  {
    Sys(G.Shim(mem, G.Disabled, G.Null, G.Null, 0), Idle, R.Init(), [])
  }

  predicate Hooked(m: G.Mem) { m.unsol == G.UnsolHook && m.complete == G.CompleteHook }

  predicate Enabled(s: Sys, a: Action)
  {
    match a
    case Begin => s.got.state.Disabled?
    case Unresolved => s.phase.Opened?
    case Publish => s.phase.Opened? && G.Resolvable(s.got.mem)
    case Store(_) => s.phase.Published?
    case StartWorker => s.phase.Published? && Hooked(s.got.mem)
    case Activate => s.phase.Started?
    case Settle(disabled) =>
      s.phase.Published?
      && (disabled ==> s.got.mem.unsol == s.got.realUnsol && s.got.mem.complete == s.got.realComplete)
    case DeliverCompletion(c) => c.token.Synthetic? ==> R.Enabled(s.replay, R.Complete(c.token.id))
    case Worker(clock, alloc) => s.got.workers > 0 && R.Enabled(s.replay, R.Worker(clock, alloc))
    case Handoff => R.Enabled(s.replay, R.Handoff)
    case _ => true
  }

  /** unsolHook, or a direct call when the slot does not hold it. */
  function OnUrc(s: Sys, u: Urc): Sys
    requires R.SysShape(s.replay)
  {
    if s.got.mem.unsol != G.UnsolHook then s.(log := s.log + [UnsolCall(s.got.mem.unsol, u)])
    else
      var noted := if s.got.state.Active? then s.(replay := R.Next(s.replay, R.Unsol(u.code, u.socket))) else s;
      if s.got.realUnsol.Null? then noted else noted.(log := s.log + [UnsolCall(s.got.realUnsol, u)])
  }

  /** completeHook, or a direct call when the slot does not hold it. */
  function OnCompletion(s: Sys, c: Completion): Sys
    requires R.SysShape(s.replay) && Enabled(s, DeliverCompletion(c))
  {
    if s.got.mem.complete != G.CompleteHook then s.(log := s.log + [CompleteCall(s.got.mem.complete, c)])
    else if c.token.Synthetic? then s.(replay := R.Next(s.replay, R.Complete(c.token.id)))
    else if s.got.realComplete.Null? then s
    else s.(log := s.log + [CompleteCall(s.got.realComplete, c)])
  }

  /** onRequestShim for SET_INITIAL_ATTACH_APN: copied while the hooks are active, and always forwarded. */
  function OnSetInitialAttachApn(s: Sys, k: int, data: Option<R.Payload>, len: nat, alloc: R.Alloc): Sys
    requires R.SysShape(s.replay)
  {
    var noted := if s.got.state.Active? then s.(replay := R.Next(s.replay, R.Cache(k, data, len, alloc))) else s;
    noted.(log := s.log + [RequestCall(k, data, len)])
  }

  function Next(s: Sys, a: Action): Sys
    requires R.SysShape(s.replay) && Enabled(s, a)
  {
    match a
    case Begin => s.(got := s.got.(state := G.Installing), phase := Opened)
    case Unresolved => s.(got := s.got.(state := G.Disabled), phase := Idle)
    case Publish =>
      s.(got := s.got.(realUnsol := s.got.mem.unsol, realComplete := s.got.mem.complete), phase := Published)
    case Store(mem) => s.(got := s.got.(mem := mem))
    case StartWorker => s.(got := s.got.(workers := s.got.workers + 1), phase := Started)
    case Activate => s.(got := s.got.(state := G.Active), phase := Idle)
    case Settle(disabled) => s.(got := s.got.(state := if disabled then G.Disabled else G.Failed), phase := Idle)
    case DeliverUrc(u) => OnUrc(s, u)
    case DeliverCompletion(c) => OnCompletion(s, c)
    case SetInitialAttachApn(k, data, len, alloc) => OnSetInitialAttachApn(s, k, data, len, alloc)
    case Worker(clock, alloc) => s.(replay := R.Next(s.replay, R.Worker(clock, alloc)))
    case Handoff => s.(replay := R.Next(s.replay, R.Handoff))
  }

  // ---------------------------------------------------------------- invariant

  /** Nothing cached, so nothing can become pending or be issued. */
  ghost predicate Dormant(s: R.Sys)
  {
    && R.TokenInv(s)
    && s.ia.cache == [None, None] && s.ia.pending == [false, false]
    && !s.ia.inFlight && s.hist.live == {}
    && !s.pc.Handing?
  }

  /** `m0` is the memory before any installation, with the original callbacks in the slots. */
  ghost predicate Inv(s: Sys, m0: G.Mem)
  {
    && R.TokenInv(s.replay)
    && (s.phase.Idle? <==> !s.got.state.Installing?)
    && (!s.got.state.Active? ==> Dormant(s.replay))
    && (s.got.state.Disabled? || s.phase.Opened? ==> s.got.mem.unsol == m0.unsol && s.got.mem.complete == m0.complete)
    && (s.got.state.Active? || s.got.state.Failed? || s.phase.Published? || s.phase.Started? ==>
          s.got.realUnsol == m0.unsol && s.got.realComplete == m0.complete && G.Resolvable(m0))
    && (s.got.state.Active? || s.phase.Started? ==> Hooked(s.got.mem) && s.got.workers == 1)
    && (!s.got.state.Active? && !s.phase.Started? ==> s.got.workers == 0)
  }

  lemma DormantStep(s: R.Sys, a: R.Action)
    requires Dormant(s) && R.Enabled(s, a) && !a.Cache?
    ensures Dormant(R.Next(s, a)) && !a.Complete? && !a.Handoff?
  {
    R.TokenInvNext(s, a);
    if a.Worker? {
      var ia, o := R.WorkerStep(s, a.clock, a.workerAlloc);
    }
  }

  /** The replay action a shim action performs, if any. */
  function ReplayPart(s: Sys, a: Action): Option<R.Action>
  {
    match a
    case DeliverUrc(u) =>
      if s.got.mem.unsol == G.UnsolHook && s.got.state.Active? then Some(R.Unsol(u.code, u.socket)) else None
    case DeliverCompletion(c) =>
      if s.got.mem.complete == G.CompleteHook && c.token.Synthetic? then Some(R.Complete(c.token.id)) else None
    case SetInitialAttachApn(k, data, len, alloc) =>
      if s.got.state.Active? then Some(R.Cache(k, data, len, alloc)) else None
    case Worker(clock, alloc) => Some(R.Worker(clock, alloc))
    case Handoff => Some(R.Handoff)
    case _ => None
  }

  lemma ReplayPartIsExact(s: Sys, a: Action)
    requires R.SysShape(s.replay) && Enabled(s, a)
    ensures var part := ReplayPart(s, a);
            && (part.Some? ==> R.Enabled(s.replay, part.value))
            && Next(s, a).replay == if part.Some? then R.Next(s.replay, part.value) else s.replay
  {
  }

  lemma ReplayInvNext(s: Sys, a: Action, m0: G.Mem)
    requires Inv(s, m0) && Enabled(s, a)
    ensures R.TokenInv(Next(s, a).replay)
    ensures !s.got.state.Active? ==> Dormant(Next(s, a).replay)
  {
    ReplayPartIsExact(s, a);
    var part := ReplayPart(s, a);
    if part.Some? {
      R.TokenInvNext(s.replay, part.value);
      if !s.got.state.Active? { DormantStep(s.replay, part.value); }
    }
  }

  lemma InvNext(s: Sys, a: Action, m0: G.Mem)
    requires Inv(s, m0) && Enabled(s, a)
    ensures Inv(Next(s, a), m0)
  {
    ReplayInvNext(s, a, m0);
  }

  // ---------------------------------------------------------------- theorems over every run

  ghost predicate Run(states: seq<Sys>, acts: seq<Action>, m0: G.Mem)
  {
    && m0.unsol != G.UnsolHook && m0.complete != G.CompleteHook
    && |states| == |acts| + 1
    && states[0] == Init(m0)
    && forall i :: 0 <= i < |acts| ==> StepAt(states, acts, i)
  }

  ghost predicate StepAt(states: seq<Sys>, acts: seq<Action>, i: nat)
    requires i < |acts| < |states|
  {
    R.SysShape(states[i].replay) && Enabled(states[i], acts[i]) && states[i + 1] == Next(states[i], acts[i])
  }

  lemma {:induction false} InvAt(states: seq<Sys>, acts: seq<Action>, m0: G.Mem, i: nat)
    requires Run(states, acts, m0) && i < |states|
    ensures Inv(states[i], m0)
  {
    if i > 0 {
      InvAt(states, acts, m0, i - 1);
      assert StepAt(states, acts, i - 1);
      InvNext(states[i - 1], acts[i - 1], m0);
    }
  }

  /** Whatever the hook state and whoever else writes the slots, a callback arriving through a slot that holds the
      original or the hook reaches the original exactly once with its arguments unchanged, and a completion of a
      synthetic token reaches nobody. */
  lemma CallbacksThroughOurSlots(states: seq<Sys>, acts: seq<Action>, m0: G.Mem, i: nat)
    requires Run(states, acts, m0) && i < |acts|
    ensures var (s, s', a) := (states[i], states[i + 1], acts[i]);
            && (a.DeliverUrc? && s.got.mem.unsol in {m0.unsol, G.UnsolHook} ==>
                  s'.log == s.log + [UnsolCall(m0.unsol, a.urc)])
            && (a.DeliverCompletion? && a.completion.token.Framework?
                  && s.got.mem.complete in {m0.complete, G.CompleteHook} ==>
                  s'.log == s.log + [CompleteCall(m0.complete, a.completion)])
            && (a.DeliverCompletion? && a.completion.token.Synthetic? ==> s'.log == s.log && s.got.state.Active?)
            && (a.SetInitialAttachApn? ==> s'.log == s.log + [RequestCall(a.socket, a.data, a.datalen)])
            && (!a.DeliverUrc? && !a.DeliverCompletion? && !a.SetInitialAttachApn? ==> s'.log == s.log)
  {
    InvAt(states, acts, m0, i);
    assert StepAt(states, acts, i);
  }

  /** The original and the hook of each slot. */
  function Ours(m0: G.Mem): G.Allowed
  {
    G.Allowed({m0.unsol, G.UnsolHook}, {m0.complete, G.CompleteHook})
  }

  /** No store puts anything else into a slot: nobody but the shim writes them. */
  ghost predicate OnlyOurStores(acts: seq<Action>, m0: G.Mem)
  {
    forall i :: 0 <= i < |acts| && acts[i].Store? ==> G.Within(acts[i].mem, Ours(m0))
  }

  lemma {:induction false} SlotsStayOurs(states: seq<Sys>, acts: seq<Action>, m0: G.Mem, i: nat)
    requires Run(states, acts, m0) && OnlyOurStores(acts, m0) && i < |states|
    ensures G.Within(states[i].got.mem, Ours(m0))
    decreases i
  {
    if i > 0 {
      SlotsStayOurs(states, acts, m0, i - 1);
      assert StepAt(states, acts, i - 1);
      OnlyStoresWriteSlots(states[i - 1], acts[i - 1]);
    }
  }

  lemma OnlyStoresWriteSlots(s: Sys, a: Action)
    requires R.SysShape(s.replay) && Enabled(s, a)
    ensures Next(s, a).got.mem == if a.Store? then a.mem else s.got.mem
  {
  }

  /** The calls that should be passed on: every URC, every framework completion and every request, in order. */
  function Due(acts: seq<Action>, m0: G.Mem): seq<Call>
  {
    if acts == [] then []
    else
      Due(acts[..|acts| - 1], m0) +
      match acts[|acts| - 1]
      case DeliverUrc(u) => [UnsolCall(m0.unsol, u)]
      case DeliverCompletion(c) => if c.token.Framework? then [CompleteCall(m0.complete, c)] else []
      case SetInitialAttachApn(k, data, len, _) => [RequestCall(k, data, len)]
      case _ => []
  }

  /** In every hook state, residual hooks of a failed rollback included, each URC and each framework completion
      reaches the original callback, and each request the vendor, exactly once with its arguments unchanged, in order,
      and nothing else does. */
  lemma {:induction false} CallbacksReachTheOriginalOnce(states: seq<Sys>, acts: seq<Action>, m0: G.Mem, i: nat)
    requires Run(states, acts, m0) && OnlyOurStores(acts, m0) && i < |states|
    ensures states[i].log == Due(acts[..i], m0)
    decreases i
  {
    if i > 0 {
      CallbacksReachTheOriginalOnce(states, acts, m0, i - 1);
      assert acts[..i][..i - 1] == acts[..i - 1];
      SlotsStayOurs(states, acts, m0, i - 1);
      CallbacksThroughOurSlots(states, acts, m0, i - 1);
    }
  }

  /** A synthetic token never leaves the shim. */
  lemma {:induction false} SyntheticTokensNeverEscape(states: seq<Sys>, acts: seq<Action>, m0: G.Mem, i: nat)
    requires Run(states, acts, m0) && i < |states|
    ensures forall c :: c in states[i].log && c.CompleteCall? ==> c.completion.token.Framework?
  {
    if i > 0 {
      SyntheticTokensNeverEscape(states, acts, m0, i - 1);
      CallbacksThroughOurSlots(states, acts, m0, i - 1);
      assert StepAt(states, acts, i - 1);
    }
  }

  /** While active the shim does its work: a reset indication for a socket with a cached payload makes it pending, a
      copyable request replaces its payload, and a completed synthetic request gives its token back. Otherwise
      callbacks and requests leave the replay alone. */
  lemma ActiveShimFeedsTheReplay(states: seq<Sys>, acts: seq<Action>, m0: G.Mem, i: nat)
    requires Run(states, acts, m0) && i < |acts|
    requires acts[i].DeliverUrc? || acts[i].DeliverCompletion? || acts[i].SetInitialAttachApn?
    ensures R.SysShape(states[i].replay) && R.SysShape(states[i + 1].replay)
    ensures var (s, s', a) := (states[i].replay, states[i + 1].replay, acts[i]);
            if !states[i].got.state.Active? then s' == s
            else
              match a
              case DeliverUrc(u) =>
                s'.ia.pending == if u.code == 3020 && 0 <= u.socket < 2 && s.ia.cache[u.socket].Some?
                                 then s.ia.pending[u.socket := true] else s.ia.pending
              case SetInitialAttachApn(k, data, len, alloc) =>
                s'.ia.cache == if L.Remembered(k, data, len, alloc) then s.ia.cache[k := data] else s.ia.cache
              case DeliverCompletion(c) =>
                if c.token.Framework? then s' == s
                else
                  && c.token.id in s.hist.live && s'.hist.live == s.hist.live - {c.token.id}
                  && !s'.ia.outstanding[s.hist.issues[c.token.id].token]
  {
    InvAt(states, acts, m0, i);
    InvAt(states, acts, m0, i + 1);
    assert StepAt(states, acts, i);
  }

  /** Some socket has a cached payload or a pending replay. */
  predicate Remembers(s: R.Sys)
    requires R.SysShape(s)
  {
    exists k :: 0 <= k < SIM_COUNT && (s.ia.pending[k] || s.ia.cache[k].Some?)
  }

  /** Caching, pending and issuing happen only once both hooks are in and the single worker runs;
      that state is terminal. */
  lemma ReplayOnlyWhenActive(states: seq<Sys>, acts: seq<Action>, m0: G.Mem, i: nat)
    requires Run(states, acts, m0) && i < |states|
    ensures var s := states[i];
            && R.SysShape(s.replay)
            && (s.replay.hist.live != {} || Remembers(s.replay) ==>
                  s.got.state.Active?)
            && (s.got.state.Active? ==> Hooked(s.got.mem) && s.got.workers == 1)
            && (i < |acts| && s.got.state.Active? ==> states[i + 1].got == s.got)
  {
    InvAt(states, acts, m0, i);
    if i < |acts| { assert StepAt(states, acts, i); }
  }

  // ---------------------------------------------------------------- the installer is one of these runs

  ghost predicate Valid(s: Sys, acts: seq<Action>)
    decreases |acts|
  {
    acts != [] ==> R.SysShape(s.replay) && Enabled(s, acts[0]) && Valid(Next(s, acts[0]), acts[1..])
  }

  ghost function Exec(s: Sys, acts: seq<Action>): Sys
    requires Valid(s, acts)
    decreases |acts|
  {
    if acts == [] then s else Exec(Next(s, acts[0]), acts[1..])
  }

  lemma {:induction false} ExecAppend(s: Sys, xs: seq<Action>, ys: seq<Action>)
    requires Valid(s, xs) && Valid(Exec(s, xs), ys)
    ensures Valid(s, xs + ys) && Exec(s, xs + ys) == Exec(Exec(s, xs), ys)
    decreases |xs|
  {
    if xs == [] {
      assert xs + ys == ys;
    } else {
      assert (xs + ys)[1..] == xs[1..] + ys;
      ExecAppend(Next(s, xs[0]), xs[1..], ys);
    }
  }

  function Stores(seen: seq<G.Mem>): (r: seq<Action>)
    ensures |r| == |seen|
  {
    if seen == [] then [] else [Store(seen[0])] + Stores(seen[1..])
  }

  lemma {:induction false} StoresExec(s: Sys, seen: seq<G.Mem>)
    requires R.SysShape(s.replay) && s.phase.Published?
    ensures Valid(s, Stores(seen))
    ensures Exec(s, Stores(seen)) == if seen == [] then s else s.(got := s.got.(mem := seen[|seen| - 1]))
    decreases |seen|
  {
    if seen != [] {
      var s' := s.(got := s.got.(mem := seen[0]));
      StoresExec(s', seen[1..]);
      assert Stores(seen)[1..] == Stores(seen[1..]);
    }
  }

  /** The shim actions one call of the installer amounts to. */
  function Script(g: G.Shim, f: G.InstallFaults): seq<Action>
    requires G.WellFormed(g.mem)
  {
    if !g.state.Disabled? then []
    else if f.unresolved || !G.Resolvable(g.mem) then [Begin, Unresolved]
    else
      var r := G.Install(g, f);
      [Begin, Publish] + Stores(r.seen) + Tail(r.shim)
  }

  lemma OneStep(s: Sys, a: Action)
    requires R.SysShape(s.replay) && Enabled(s, a)
    ensures Valid(s, [a]) && Exec(s, [a]) == Next(s, a)
  {
    assert [a][1..] == [];
  }

  lemma TwoSteps(s: Sys, a: Action, b: Action)
    requires R.SysShape(s.replay) && Enabled(s, a)
    requires R.SysShape(Next(s, a).replay) && Enabled(Next(s, a), b)
    ensures Valid(s, [a, b]) && Exec(s, [a, b]) == Next(Next(s, a), b)
  {
    OneStep(s, a);
    OneStep(Next(s, a), b);
    ExecAppend(s, [a], [b]);
    assert [a] + [b] == [a, b];
  }

  function Tail(g: G.Shim): seq<Action>
  {
    if g.state.Active? then [StartWorker, Activate] else [Settle(g.state.Disabled?)]
  }

  lemma TailExec(s: Sys, g: G.Shim)
    requires R.SysShape(s.replay) && s.phase.Published? && s.got.mem == g.mem
    requires s.got.realUnsol == g.realUnsol && s.got.realComplete == g.realComplete
    requires !g.state.Installing? && g.workers == s.got.workers + (if g.state.Active? then 1 else 0)
    requires g.state.Active? ==> Hooked(g.mem)
    requires g.state.Disabled? ==> g.mem.unsol == g.realUnsol && g.mem.complete == g.realComplete
    ensures Valid(s, Tail(g)) && Exec(s, Tail(g)) == s.(got := g, phase := Idle)
  {
    if g.state.Active? {
      TwoSteps(s, StartWorker, Activate);
    } else {
      OneStep(s, Settle(g.state.Disabled?));
    }
  }

  /** A resolved installation that shows `seen` and ends in `g` is a run. */
  lemma InstallRuns(s: Sys, seen: seq<G.Mem>, g: G.Shim)
    requires R.SysShape(s.replay) && s.phase.Idle? && s.got.state.Disabled? && G.Resolvable(s.got.mem)
    requires g.mem == if seen == [] then s.got.mem else seen[|seen| - 1]
    requires g.realUnsol == s.got.mem.unsol && g.realComplete == s.got.mem.complete
    requires !g.state.Installing? && g.workers == s.got.workers + (if g.state.Active? then 1 else 0)
    requires g.state.Active? ==> Hooked(g.mem)
    requires g.state.Disabled? ==> g.mem.unsol == g.realUnsol && g.mem.complete == g.realComplete
    ensures var acts := [Begin, Publish] + Stores(seen) + Tail(g);
            Valid(s, acts) && Exec(s, acts) == s.(got := g)
  {
    TwoSteps(s, Begin, Publish);
    var s2 := Exec(s, [Begin, Publish]);
    StoresExec(s2, seen);
    ExecAppend(s, [Begin, Publish], Stores(seen));
    TailExec(Exec(s2, Stores(seen)), g);
    ExecAppend(s, [Begin, Publish] + Stores(seen), Tail(g));
  }

  /** For every pattern of faults, the installer's code is a run of this machine that ends where the code ends. */
  lemma InstallRefinesTheMachine(s: Sys, f: G.InstallFaults)
    requires R.SysShape(s.replay) && G.WellFormed(s.got.mem) && s.phase.Idle?
    ensures Valid(s, Script(s.got, f))
    ensures Exec(s, Script(s.got, f)) == s.(got := G.Install(s.got, f).shim)
  {
    if s.got.state.Disabled? {
      if f.unresolved || !G.Resolvable(s.got.mem) {
        TwoSteps(s, Begin, Unresolved);
      } else {
        G.InstallIsAtomic(s.got, f);
        InstallRuns(s, G.Install(s.got, f).seen, G.Install(s.got, f).shim);
      }
    }
  }

  lemma {:induction false} StoresAre(seen: seq<G.Mem>, i: nat)
    requires i < |seen|
    ensures Stores(seen)[i] == Store(seen[i])
    decreases i
  {
    if i > 0 { StoresAre(seen[1..], i - 1); }
  }

  /** Without another writer, an installation from the original memory makes only stores of originals and hooks,
      whatever else fails: its runs are among those of CallbacksReachTheOriginalOnce. */
  lemma InstallMakesOnlyOurStores(g: G.Shim, f: G.InstallFaults, m0: G.Mem)
    requires G.WellFormed(g.mem) && G.NoOtherWriter(f)
    requires g.state.Disabled? ==> g.mem.unsol == m0.unsol && g.mem.complete == m0.complete
    ensures OnlyOurStores(Script(g, f), m0)
  {
    if g.state.Disabled? && !f.unresolved && G.Resolvable(g.mem) {
      G.InstallShowsOnlyOriginalsAndHooks(g, f, Ours(m0));
      var seen := G.Install(g, f).seen;
      ScriptStores(seen, G.Install(g, f).shim, m0);
    }
  }

  lemma ScriptStores(seen: seq<G.Mem>, g: G.Shim, m0: G.Mem)
    requires G.AllWithin(seen, Ours(m0))
    ensures OnlyOurStores([Begin, Publish] + Stores(seen) + Tail(g), m0)
  {
    var acts := [Begin, Publish] + Stores(seen) + Tail(g);
    forall i | 0 <= i < |acts| && acts[i].Store? ensures G.Within(acts[i].mem, Ours(m0)) {
      assert 2 <= i < 2 + |seen|;
      StoresAre(seen, i - 2);
      assert acts[i] == Stores(seen)[i - 2];
      assert G.Within(seen[i - 2], Ours(m0));
    }
  }
}
