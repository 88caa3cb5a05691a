/**
 The firmware-log worker of the WMT launcher: a thread that repeats a bounded enable ioctl, and a main thread that
 reaps, restarts and stops it and disables logging. Every interleaving of the two, and every failure of thread
 creation, join and ioctl, is a run of this machine.
 */
module LogWorker {
  import opened Bytes
  import B = BtVersion

  const YES: seq<Byte> := B.Ascii("yes")

  /** The fields of the controls and the log task that the main thread decides by. */
  datatype Control = Control(created: bool, stopping: bool, finished: bool, fwlog: seq<Byte>)

  /** Why logging is being stopped: to apply a property value, or at shutdown. */
  datatype Goal = Apply(value: seq<Byte>) | Final

  datatype Closing = Nothing | JoinFailed | Tried

  datatype Pc = Idle | Reaping | Creating | Joining(goal: Goal) | Disabling(goal: Goal) | Closed(how: Closing)

  // ---------------------------------------------------------------- the main thread between its blocking calls

  /** check_optional_controls up to its first join, thread creation or ioctl. */
  function BeginCheck(c: Control, value: seq<Byte>): (Control, Pc)
  {
    if value == YES then (c, if c.created && c.finished then Reaping else if c.created then Idle else Creating)
    else if value != c.fwlog then BeginStop(c, Apply(value))
    else (c, Idle)
  }

  function AfterReap(c: Control, ok: bool): (Control, Pc)
  {
    if ok then (c.(created := false), Creating) else (c, Idle)
  }

  function AfterCreate(c: Control, ok: bool): Control
  {
    if ok then Control(true, false, false, YES) else c.(stopping := false, finished := false)
  }

  /** stop_firmware_log. */
  function BeginStop(c: Control, goal: Goal): (Control, Pc)
  {
    if c.created then (c.(stopping := true), Joining(goal)) else (c, Disabling(goal))
  }

  function Rest(goal: Goal, how: Closing): Pc { if goal.Final? then Closed(how) else Idle }

  function AfterJoin(c: Control, goal: Goal, ok: bool): (Control, Pc)
  {
    if ok then (c.(created := false), Disabling(goal)) else (c, Rest(goal, JoinFailed))
  }

  function AfterDisable(c: Control, goal: Goal, ok: bool): (Control, Pc)
  {
    (if ok && goal.Apply? then c.(fwlog := goal.value) else c, Rest(goal, Tried))
  }

  /** The end of main. */
  function BeginShutdown(c: Control): (Control, Pc)
  {
    if c.created || c.fwlog == YES then BeginStop(c, Final) else (c, Closed(Nothing))
  }

  // ---------------------------------------------------------------- the machine

  /** Where a worker thread is: testing the stop flag, about to issue its ioctl, leaving, gone. */
  datatype Worker = Testing | Issuing | Leaving | Gone

  datatype Event = Created | Enable | Disable(ok: bool)

  /** Every thread ever started, the one the handle names, and the log of creations and ioctls. */
  datatype Sys = Sys(control: Control, pc: Pc, threads: seq<Worker>, current: int, trace: seq<Event>)

  datatype Action =
    | Check(value: seq<Byte>)
    | ReapReturns(ok: bool)
    | CreateReturns(ok: bool)
    | JoinReturns(ok: bool)
    | DisableReturns(ok: bool)
    | Shutdown
    | WorkerTests(i: nat)
    | WorkerIoctl(i: nat, ok: bool)
    | WorkerLeaves(i: nat)

  const INIT: Sys := Sys(Control(false, false, false, []), Idle, [], -1, [])

  predicate Awaited(s: Sys) { 0 <= s.current < |s.threads| && s.threads[s.current] == Gone }

  predicate Enabled(s: Sys, a: Action)
  {
    match a
    case Check(_) => s.pc.Idle?
    case ReapReturns(ok) => s.pc.Reaping? && (ok ==> Awaited(s))
    case CreateReturns(_) => s.pc.Creating?
    case JoinReturns(ok) => s.pc.Joining? && (ok ==> Awaited(s))
    case DisableReturns(_) => s.pc.Disabling?
    case Shutdown => s.pc.Idle?
    case WorkerTests(i) => i < |s.threads| && s.threads[i].Testing?
    case WorkerIoctl(i, _) => i < |s.threads| && s.threads[i].Issuing?
    case WorkerLeaves(i) => i < |s.threads| && s.threads[i].Leaving?
  }

  function Main(s: Sys, next: (Control, Pc)): Sys { s.(control := next.0, pc := next.1) }

  function Next(s: Sys, a: Action): Sys
    requires Enabled(s, a)
  {
    match a
    case Check(value) => Main(s, BeginCheck(s.control, value))
    case ReapReturns(ok) => Main(s, AfterReap(s.control, ok))
    case CreateReturns(ok) =>
      var s' := Main(s, (AfterCreate(s.control, ok), Idle));
      if ok then s'.(threads := s.threads + [Testing], current := |s.threads|, trace := s.trace + [Created]) else s'
    case JoinReturns(ok) => Main(s, AfterJoin(s.control, s.pc.goal, ok))
    case DisableReturns(ok) => Main(s, AfterDisable(s.control, s.pc.goal, ok)).(trace := s.trace + [Disable(ok)])
    case Shutdown => Main(s, BeginShutdown(s.control))
    case WorkerTests(i) => s.(threads := s.threads[i := if s.control.stopping then Leaving else Issuing])
    case WorkerIoctl(i, ok) =>
      s.(threads := s.threads[i := if ok then Testing else Leaving], trace := s.trace + [Enable])
    case WorkerLeaves(i) => s.(threads := s.threads[i := Gone], control := s.control.(finished := true))
  }

  ghost predicate StepAt(states: seq<Sys>, acts: seq<Action>, i: nat)
    requires i < |acts| && |states| == |acts| + 1
  {
    Enabled(states[i], acts[i]) && states[i + 1] == Next(states[i], acts[i])
  }

  ghost predicate Run(states: seq<Sys>, acts: seq<Action>)
  {
    && |states| == |acts| + 1 && states[0] == INIT
    && forall i :: 0 <= i < |acts| ==> StepAt(states, acts, i)
  }

  // ---------------------------------------------------------------- what the log says

  /** A worker was created after the last disable, successful or not. */
  function CreatedSinceDisable(trace: seq<Event>): bool
  {
    if trace == [] then false
    else
      match trace[|trace| - 1]
      case Created => true
      case Disable(_) => false
      case Enable => CreatedSinceDisable(trace[..|trace| - 1])
  }

  /** A worker was created after the last successful disable. */
  function Dirty(trace: seq<Event>): bool
  {
    if trace == [] then false
    else
      match trace[|trace| - 1]
      case Created => true
      case Disable(true) => false
      case _ => Dirty(trace[..|trace| - 1])
  }

  lemma Appended(trace: seq<Event>, e: Event)
    ensures CreatedSinceDisable(trace + [e]) == (e.Created? || (e.Enable? && CreatedSinceDisable(trace)))
    ensures Dirty(trace + [e]) == (e.Created? || (e != Disable(true) && Dirty(trace)))
  {
    assert (trace + [e])[..|trace|] == trace;
  }

  // ---------------------------------------------------------------- invariant

  predicate Alive(s: Sys, i: nat) { i < |s.threads| && !s.threads[i].Gone? }

  ghost predicate OnlyCurrentAlive(s: Sys)
  {
    && (s.control.created ==> 0 <= s.current < |s.threads|)
    && forall i: nat :: Alive(s, i) ==> s.control.created && i == s.current
  }

  predicate PcAgrees(s: Sys)
  {
    match s.pc
    case Idle => true
    case Reaping => s.control.created && s.control.finished
    case Creating => !s.control.created
    case Joining(_) => s.control.created && s.control.stopping
    case Disabling(_) => !s.control.created
    case Closed(Nothing) => !s.control.created && !Dirty(s.trace)
    case Closed(JoinFailed) => s.control.created
    case Closed(Tried) => !s.control.created && s.trace != [] && s.trace[|s.trace| - 1].Disable?
  }

  predicate LogAgrees(s: Sys)
  {
    && (s.control.created ==> CreatedSinceDisable(s.trace))
    && (Dirty(s.trace) ==> s.control.fwlog == YES)
  }

  /** The flag a worker sets on leaving tells whether it is gone. */
  predicate FlagAgrees(s: Sys)
  {
    s.control.created ==> 0 <= s.current < |s.threads| && (s.control.finished <==> s.threads[s.current].Gone?)
  }

  ghost predicate Inv(s: Sys) { OnlyCurrentAlive(s) && FlagAgrees(s) && PcAgrees(s) && LogAgrees(s) }

  lemma InvNext(s: Sys, a: Action)
    requires Inv(s) && Enabled(s, a)
    ensures Inv(Next(s, a))
  {
    var s' := Next(s, a);
    if s'.trace != s.trace && |s'.trace| == |s.trace| + 1 { Appended(s.trace, s'.trace[|s.trace|]); }
    forall i: nat | Alive(s', i) ensures s'.control.created && i == s'.current {
      if i < |s.threads| && Alive(s, i) { }
    }
    if a.WorkerTests? || a.WorkerIoctl? || a.WorkerLeaves? { assert Alive(s, a.i); }
  }

  lemma {:induction false} InvAt(states: seq<Sys>, acts: seq<Action>, i: nat)
    requires Run(states, acts) && i < |states|
    ensures Inv(states[i])
    decreases i
  {
    if i > 0 {
      InvAt(states, acts, i - 1);
      assert StepAt(states, acts, i - 1);
      InvNext(states[i - 1], acts[i - 1]);
    }
  }

  // ---------------------------------------------------------------- theorems over every run

  /** At most one worker runs at any time. */
  lemma AtMostOneWorker(states: seq<Sys>, acts: seq<Action>, k: nat, i: nat, j: nat)
    requires Run(states, acts) && k < |states| && Alive(states[k], i) && Alive(states[k], j)
    ensures i == j
  {
    InvAt(states, acts, k);
  }

  /** A disable ioctl is issued only when no worker is running. */
  lemma DisableOnlyWhenNoneRuns(states: seq<Sys>, acts: seq<Action>, k: nat, i: nat)
    requires Run(states, acts) && k < |acts| && acts[k].DisableReturns?
    ensures !Alive(states[k], i)
  {
    InvAt(states, acts, k);
    assert StepAt(states, acts, k);
  }

  lemma TraceGrows(s: Sys, a: Action)
    requires Enabled(s, a)
    ensures s.trace <= Next(s, a).trace && |Next(s, a).trace| <= |s.trace| + 1
    ensures |Next(s, a).trace| == |s.trace| + 1 && Next(s, a).trace[|s.trace|].Enable? ==> a.WorkerIoctl?
  {
  }

  /** Every enable in the log comes from a worker created after the disable before it. */
  ghost predicate EnablesAreFresh(trace: seq<Event>)
  {
    forall j :: 0 <= j < |trace| && trace[j].Enable? ==> CreatedSinceDisable(trace[..j])
  }

  lemma {:induction false} EnablesAreFreshAt(states: seq<Sys>, acts: seq<Action>, i: nat)
    requires Run(states, acts) && i < |states|
    ensures EnablesAreFresh(states[i].trace)
    decreases i
  {
    if i > 0 {
      EnablesAreFreshAt(states, acts, i - 1);
      InvAt(states, acts, i - 1);
      assert StepAt(states, acts, i - 1);
      FreshNext(states[i - 1], acts[i - 1]);
    }
  }

  lemma FreshNext(s: Sys, a: Action)
    requires Inv(s) && Enabled(s, a) && EnablesAreFresh(s.trace)
    ensures EnablesAreFresh(Next(s, a).trace)
  {
    TraceGrows(s, a);
    var t := Next(s, a).trace;
    if a.WorkerIoctl? { assert Alive(s, a.i); }
    forall j | 0 <= j < |t| && t[j].Enable? ensures CreatedSinceDisable(t[..j]) {
      if j < |s.trace| {
        assert t[..j] == s.trace[..j] && t[j] == s.trace[j];
      } else {
        assert t[..j] == s.trace;
      }
    }
  }

  lemma {:induction false} CreationBetween(trace: seq<Event>, i: nat) returns (k: nat)
    requires i < |trace| && trace[i].Disable? && CreatedSinceDisable(trace)
    ensures i < k < |trace| && trace[k].Created?
    decreases |trace|
  {
    var n := |trace| - 1;
    if trace[n].Created? {
      k := n;
    } else {
      k := CreationBetween(trace[..n], i);
    }
  }

  /** Between a disable and a later enable a new worker was created: no old worker overwrites a disable. */
  lemma NoEnableOvertakesADisable(states: seq<Sys>, acts: seq<Action>, n: nat, i: nat, j: nat) returns (k: nat)
    requires Run(states, acts) && n < |states| && i < j < |states[n].trace|
    requires states[n].trace[i].Disable? && states[n].trace[j].Enable?
    ensures i < k < j && states[n].trace[k].Created?
  {
    EnablesAreFreshAt(states, acts, n);
    k := CreationBetween(states[n].trace[..j], i);
  }

  /**
   When the service has closed and the final join did not fail: no worker is alive, and a worker was started since the
   last successful disable only if the log ends with a final disable that the driver refused.
   */
  lemma ShutdownDisablesWhatWasStarted(states: seq<Sys>, acts: seq<Action>, n: nat)
    requires Run(states, acts) && n < |states| && states[n].pc.Closed? && !states[n].pc.how.JoinFailed?
    ensures forall i: nat :: !Alive(states[n], i)
    ensures var t := states[n].trace;
            && (states[n].pc.how.Tried? ==> t != [] && t[|t| - 1].Disable?)
            && (Dirty(t) ==> t != [] && t[|t| - 1] == Disable(false))
  {
    InvAt(states, acts, n);
    var t := states[n].trace;
    if states[n].pc.how.Tried? {
      assert t == t[..|t| - 1] + [t[|t| - 1]];
      Appended(t[..|t| - 1], t[|t| - 1]);
    }
  }

  /** A shutdown that finds a worker started since the last successful disable does not skip the disable. */
  lemma DirtyShutdownStops(states: seq<Sys>, acts: seq<Action>, n: nat)
    requires Run(states, acts) && n < |acts| && acts[n].Shutdown? && Dirty(states[n].trace)
    ensures states[n + 1].pc in {Joining(Final), Disabling(Final)}
  {
    InvAt(states, acts, n);
    assert StepAt(states, acts, n);
  }

  /** The enable a worker has already decided on. */
  function Pending(s: Sys): nat
  {
    if 0 <= s.current < |s.threads| && s.threads[s.current].Issuing? then 1 else 0
  }

  lemma JoiningNext(s: Sys, a: Action)
    requires Inv(s) && Enabled(s, a) && s.pc.Joining? && Next(s, a).pc.Joining?
    ensures |Next(s, a).trace| + Pending(Next(s, a)) <= |s.trace| + Pending(s)
  {
    if a.WorkerTests? || a.WorkerIoctl? || a.WorkerLeaves? { assert Alive(s, a.i); }
  }

  lemma {:induction false} JoiningSpan(states: seq<Sys>, acts: seq<Action>, i: nat, k: nat)
    requires Run(states, acts) && i <= k < |states| && forall m :: i <= m <= k ==> states[m].pc.Joining?
    ensures |states[k].trace| + Pending(states[k]) <= |states[i].trace| + Pending(states[i])
    decreases k
  {
    if i < k {
      JoiningSpan(states, acts, i, k - 1);
      InvAt(states, acts, k - 1);
      assert StepAt(states, acts, k - 1);
      JoiningNext(states[k - 1], acts[k - 1]);
    }
  }

  /** While the main thread waits in a join, the worker being stopped issues at most one more ioctl. */
  lemma JoinWaitsForOneIoctlAtMost(states: seq<Sys>, acts: seq<Action>, i: nat, k: nat)
    requires Run(states, acts) && i <= k < |states| && forall m :: i <= m <= k ==> states[m].pc.Joining?
    ensures |states[k].trace| <= |states[i].trace| + 1
  {
    JoiningSpan(states, acts, i, k);
  }

  // ---------------------------------------------------------------- the main thread's code

  /** The results of the blocking calls of one check: join, thread creation, disable ioctl; and whether the worker
      leaves while the main thread is in a join that fails. */
  datatype Answers = Answers(join: bool, leaves: bool, create: bool, disable: bool)

  /** The controls when a join returns: a joined worker has set its flag, another may have. */
  function Waited(c: Control, answers: Answers): Control
  {
    c.(finished := c.finished || answers.join || answers.leaves)
  }

  /** One whole check, following the machine from step to step. */
  function CheckAll(c: Control, value: seq<Byte>, answers: Answers): (Control, seq<Event>)
  {
    Continue(BeginCheck(c, value), answers)
  }

  function Continue(at: (Control, Pc), answers: Answers): (Control, seq<Event>)
    decreases match at.1 case Joining(_) => 2 case Reaping => 2 case Disabling(_) => 1 case Creating => 1 case _ => 0
  {
    match at.1
    case Idle => (at.0, [])
    case Closed(_) => (at.0, [])
    case Reaping => Continue(AfterReap(Waited(at.0, answers), answers.join), answers)
    case Creating => (AfterCreate(at.0, answers.create), if answers.create then [Created] else [])
    case Joining(goal) => Continue(AfterJoin(Waited(at.0, answers), goal, answers.join), answers)
    case Disabling(goal) => (AfterDisable(at.0, goal, answers.disable).0, [Disable(answers.disable)])
  }

  /** Stopping for a property value is stopping for shutdown plus recording the value once the disable succeeded. */
  lemma StopThenApply(c: Control, value: seq<Byte>, answers: Answers)
    ensures var (final, log) := Continue(BeginStop(c, Final), answers);
            var ok := answers.disable && (c.created ==> answers.join);
            Continue(BeginStop(c, Apply(value)), answers) == (final.(fwlog := if ok then value else c.fwlog), log)
  {
    if c.created {
      var stopping := c.(stopping := true);
      var waited := Waited(stopping, answers);
      assert Continue((stopping, Joining(Final)), answers) == Continue(AfterJoin(waited, Final, answers.join), answers);
      assert Continue((stopping, Joining(Apply(value))), answers) ==
             Continue(AfterJoin(waited, Apply(value), answers.join), answers);
    }
  }

  // ---------------------------------------------------------------- the main thread's code is part of a run

  /** `acts` leads from one state to the other. */
  ghost predicate Path(s: Sys, acts: seq<Action>, s': Sys)
    decreases |acts|
  {
    if acts == [] then s == s' else Enabled(s, acts[0]) && Path(Next(s, acts[0]), acts[1..], s')
  }

  lemma {:induction false} PathAppend(s: Sys, xs: seq<Action>, mid: Sys, ys: seq<Action>, s': Sys)
    requires Path(s, xs, mid) && Path(mid, ys, s')
    ensures Path(s, xs + ys, s')
    decreases |xs|
  {
    if xs == [] {
      assert xs + ys == ys;
    } else {
      assert (xs + ys)[1..] == xs[1..] + ys;
      PathAppend(Next(s, xs[0]), xs[1..], mid, ys, s');
    }
  }

  lemma PathStep(s: Sys, a: Action)
    requires Enabled(s, a)
    ensures Path(s, [a], Next(s, a))
  {
    assert [a][1..] == [];
  }

  /** What the main thread contributed to the log. */
  function OfMain(trace: seq<Event>): seq<Event>
  {
    if trace == [] then []
    else OfMain(trace[..|trace| - 1]) + if trace[|trace| - 1].Enable? then [] else [trace[|trace| - 1]]
  }

  lemma OfMainAppend(trace: seq<Event>, e: Event)
    ensures OfMain(trace + [e]) == OfMain(trace) + if e.Enable? then [] else [e]
  {
    assert (trace + [e])[..|trace|] == trace;
  }

  /** A worker told to stop can always run to its end, so a join can return. */
  lemma WorkerCanLeave(s: Sys) returns (acts: seq<Action>, s': Sys)
    requires Inv(s) && s.pc.Joining?
    ensures Path(s, acts, s') && Inv(s') && s'.pc == s.pc && Awaited(s')
    ensures s'.control == s.control.(finished := true) && OfMain(s'.trace) == OfMain(s.trace)
  {
    acts, s' := [], s;
    var i := s.current;
    if s'.threads[i].Testing? {
      acts, s' := OneMore(s, acts, s', WorkerTests(i));
    } else if s'.threads[i].Issuing? {
      OfMainAppend(s.trace, Enable);
      acts, s' := OneMore(s, acts, s', WorkerIoctl(i, false));
    }
    if s'.threads[i].Leaving? { acts, s' := OneMore(s, acts, s', WorkerLeaves(i)); }
  }

  lemma OneMore(s: Sys, acts: seq<Action>, mid: Sys, a: Action) returns (acts': seq<Action>, s': Sys)
    requires Path(s, acts, mid) && Inv(mid) && Enabled(mid, a)
    ensures acts' == acts + [a] && s' == Next(mid, a) && Path(s, acts', s') && Inv(s')
  {
    acts', s' := acts + [a], Next(mid, a);
    PathStep(mid, a);
    PathAppend(s, acts, mid, [a], s');
    InvNext(mid, a);
  }

  /** The main thread is between calls: idle or done. */
  predicate AtRest(pc: Pc) { pc.Idle? || pc.Closed? }

  /** Where the main thread comes to rest: closed after a shutdown, idle otherwise. */
  predicate Ends(pc: Pc, end: Pc)
  {
    match pc
    case Joining(goal) => if goal.Final? then end.Closed? else end.Idle?
    case Disabling(goal) => if goal.Final? then end.Closed? else end.Idle?
    case Closed(_) => end.Closed?
    case _ => end.Idle?
  }

  /** The last call: thread creation or the disable ioctl. */
  lemma LastCallRuns(s: Sys, answers: Answers) returns (acts: seq<Action>, s': Sys)
    requires Inv(s) && (AtRest(s.pc) || s.pc.Creating? || s.pc.Disabling?)
    ensures Path(s, acts, s') && Ends(s.pc, s'.pc)
    ensures var (c, log) := Continue((s.control, s.pc), answers);
            s'.control == c && OfMain(s'.trace) == OfMain(s.trace) + log
  {
    acts, s' := [], s;
    if s.pc.Creating? {
      OfMainAppend(s.trace, Created);
      acts, s' := OneMore(s, acts, s', CreateReturns(answers.create));
    } else if s.pc.Disabling? {
      OfMainAppend(s.trace, Disable(answers.disable));
      acts, s' := OneMore(s, acts, s', DisableReturns(answers.disable));
    }
  }

  /** The wait: a join that succeeds, or fails with the worker gone or not. */
  lemma WaitRuns(s: Sys, answers: Answers) returns (acts: seq<Action>, s': Sys)
    requires Inv(s) && (s.pc.Reaping? || s.pc.Joining?)
    ensures Path(s, acts, s') && Inv(s') && (AtRest(s'.pc) || s'.pc.Creating? || s'.pc.Disabling?)
    ensures (s'.control, s'.pc) == (if s.pc.Reaping? then AfterReap(Waited(s.control, answers), answers.join)
                                    else AfterJoin(Waited(s.control, answers), s.pc.goal, answers.join))
    ensures OfMain(s'.trace) == OfMain(s.trace)
  {
    acts, s' := [], s;
    if s.pc.Reaping? {
      acts, s' := OneMore(s, acts, s', ReapReturns(answers.join));
    } else {
      if answers.join || answers.leaves { acts, s' := WorkerCanLeave(s); }
      acts, s' := OneMore(s, acts, s', JoinReturns(answers.join));
    }
  }

  /** Whatever the calls return, following the code from a blocking call to its end is a run of the machine, with the
      worker's steps in between, that ends in the controls the code computes. */
  lemma CodeRuns(s: Sys, answers: Answers) returns (acts: seq<Action>, s': Sys)
    requires Inv(s)
    ensures Path(s, acts, s') && Ends(s.pc, s'.pc)
    ensures var (c, log) := Continue((s.control, s.pc), answers);
            s'.control == c && OfMain(s'.trace) == OfMain(s.trace) + log
  {
    if s.pc.Reaping? || s.pc.Joining? {
      var waiting, mid := WaitRuns(s, answers);
      var last, end := LastCallRuns(mid, answers);
      PathAppend(s, waiting, mid, last, end);
      acts, s' := waiting + last, end;
    } else {
      acts, s' := LastCallRuns(s, answers);
    }
  }

  /** One check of the firmware-log property is a run of the machine. */
  lemma CheckIsARun(s: Sys, value: seq<Byte>, answers: Answers) returns (acts: seq<Action>, s': Sys)
    requires Inv(s) && s.pc.Idle?
    ensures Path(s, acts, s') && s'.pc.Idle?
    ensures var (c, log) := CheckAll(s.control, value, answers);
            s'.control == c && OfMain(s'.trace) == OfMain(s.trace) + log
  {
    var mid := Next(s, Check(value));
    PathStep(s, Check(value));
    InvNext(s, Check(value));
    var rest, end := CodeRuns(mid, answers);
    PathAppend(s, [Check(value)], mid, rest, end);
    acts, s' := [Check(value)] + rest, end;
  }

  /** The shutdown path is a run of the machine. */
  lemma ShutdownIsARun(s: Sys, answers: Answers) returns (acts: seq<Action>, s': Sys)
    requires Inv(s) && s.pc.Idle?
    ensures Path(s, acts, s') && s'.pc.Closed?
    ensures var (c, log) := Continue(BeginShutdown(s.control), answers);
            s'.control == c && OfMain(s'.trace) == OfMain(s.trace) + log
  {
    var mid := Next(s, Shutdown);
    PathStep(s, Shutdown);
    InvNext(s, Shutdown);
    var rest, end := CodeRuns(mid, answers);
    PathAppend(s, [Shutdown], mid, rest, end);
    acts, s' := [Shutdown] + rest, end;
  }

  class LogControls {
    var created: bool
    var stopping: bool
    var finished: bool
    var fwlog: seq<Byte>
    ghost var events: seq<Event>

    ghost function View(): Control
      reads this
    {
      Control(created, stopping, finished, fwlog)
    }

    constructor ()
      ensures View() == INIT.control && events == []
    {
      created, stopping, finished, fwlog := false, false, false, [];
      events := [];
    }

    /** pthread_join blocks; the worker's flag may change meanwhile. */
    method Wait(answers: Answers)
      modifies this`finished
      ensures View() == Waited(old(View()), answers)
    {
      if answers.join || answers.leaves { finished := true; }
    }

    /** stop_firmware_log; true when the disable succeeded. */
    method StopFirmwareLog(answers: Answers) returns (ok: bool)
      modifies this
      ensures fwlog == old(fwlog)
      ensures var (c, log) := Continue(BeginStop(old(View()), Final), answers);
              View() == c && events == old(events) + log
      ensures ok <==> answers.disable && (old(created) ==> answers.join)
    {
      if created {
        stopping := true;
        Wait(answers);
        if !answers.join { return false; }
        created := false;
      }
      events := events + [Disable(answers.disable)];
      return answers.disable;
    }

    /** The firmware-log part of check_optional_controls. */
    method CheckFirmwareLog(value: seq<Byte>, answers: Answers)
      modifies this
      ensures var (c, log) := CheckAll(old(View()), value, answers);
              View() == c && events == old(events) + log
    {
      if value == YES {
        if created && finished {
          assert Continue((View(), Reaping), answers) ==
              Continue(AfterReap(Waited(View(), answers), answers.join), answers);
          Wait(answers);
          if answers.join { created := false; }
        }
        if !created {
          stopping, finished := false, false;
          if answers.create {
            created := true;
            fwlog := value;
            events := events + [Created];
          }
        }
      } else if value != fwlog {
        StopThenApply(View(), value, answers);
        var ok := StopFirmwareLog(answers);
        if ok { fwlog := value; }
      }
    }

    /** The end of main. */
    method ShutDown(answers: Answers)
      modifies this
      ensures var (c, log) := Continue(BeginShutdown(old(View())), answers);
              View() == c && events == old(events) + log
    {
      if created || fwlog == YES {
        var _ := StopFirmwareLog(answers);
      }
    }
  }
}
