/** What each check of the firmware-log property does, step by step over every run and as a whole. */
module LogLaws {
  import opened Bytes
  import B = BtVersion
  import opened LogWorker

  predicate SaysYes(value: seq<Byte>) { value == B.Ascii("yes") }

  /** A worker that has gone is reaped, a running one is left alone, a missing one is started; another value stops the
      worker if it differs from the recorded one, and does nothing otherwise. */
  lemma CheckStartsExactly(states: seq<Sys>, acts: seq<Action>, k: nat, value: seq<Byte>)
    requires Run(states, acts) && k < |acts| && acts[k] == Check(value)
    ensures var (s, s') := (states[k], states[k + 1]);
            && s.pc == Idle && s' == s.(control := s'.control, pc := s'.pc)
            && (s.control.created ==> 0 <= s.current < |s.threads|)
            && (SaysYes(value) ==>
                  && s'.control == s.control
                  && (s.control.created && !s.threads[s.current].Gone? ==> s'.pc == Idle)
                  && (s.control.created && s.threads[s.current].Gone? ==> s'.pc == Reaping)
                  && (!s.control.created ==> s'.pc == Creating))
            && (!SaysYes(value) && value != s.control.fwlog ==>
                  && s'.pc == (if s.control.created then Joining(Apply(value)) else Disabling(Apply(value)))
                  && s'.control == s.control.(stopping := s.control.stopping || s.control.created))
            && (!SaysYes(value) && value == s.control.fwlog ==> s' == s)
  {
    InvAt(states, acts, k);
    assert StepAt(states, acts, k);
  }

  /** The recorded value changes only when a worker was started, or when the disable asked for by a new value
      succeeded, and then to exactly that value. */
  lemma RecordedValueExactly(states: seq<Sys>, acts: seq<Action>, k: nat)
    requires Run(states, acts) && k < |acts|
    ensures var (s, s') := (states[k], states[k + 1]);
            s'.control.fwlog ==
            if acts[k] == CreateReturns(true) then B.Ascii("yes")
            else if acts[k] == DisableReturns(true) && s.pc.Disabling? && s.pc.goal.Apply? then s.pc.goal.value
            else s.control.fwlog
  {
    assert StepAt(states, acts, k);
  }

  /** A stop goes on to its disable once the worker was joined, and gives up if it could not be. */
  lemma StopsExactly(states: seq<Sys>, acts: seq<Action>, k: nat)
    requires Run(states, acts) && k < |acts|
    ensures var (s, s') := (states[k], states[k + 1]);
            && (s.pc.Joining? && acts[k] == JoinReturns(true) ==>
                  s'.pc == Disabling(s.pc.goal) && !s'.control.created && s'.trace == s.trace)
            && (s.pc.Joining? && acts[k] == JoinReturns(false) ==>
                  && s'.pc == (if s.pc.goal.Final? then Closed(JoinFailed) else Idle)
                  && s'.control == s.control && s'.trace == s.trace)
            && (s.pc.Joining? && !acts[k].JoinReturns? ==> s'.pc == s.pc && s'.control.stopping)
            && (s.pc.Disabling? && acts[k].DisableReturns? ==>
                  && s'.pc == (if s.pc.goal.Final? then Closed(Tried) else Idle)
                  && s'.trace == s.trace + [Disable(acts[k].ok)])
            && (s.pc.Disabling? && !acts[k].DisableReturns? ==> s'.pc == s.pc)
  {
    InvAt(states, acts, k);
    assert StepAt(states, acts, k);
  }

  /** A gone worker that was joined makes room for a new one, which starts with both flags clear. */
  lemma StartsExactly(states: seq<Sys>, acts: seq<Action>, k: nat)
    requires Run(states, acts) && k < |acts|
    ensures var (s, s') := (states[k], states[k + 1]);
            && (acts[k].ReapReturns? ==>
                  && s'.pc == (if acts[k].ok then Creating else Idle)
                  && s'.control == s.control.(created := !acts[k].ok) && s'.trace == s.trace)
            && (acts[k] == CreateReturns(true) ==>
                  && s'.pc == Idle && s'.control == Control(true, false, false, B.Ascii("yes"))
                  && s'.threads == s.threads + [Testing] && s'.current == |s.threads|
                  && s'.trace == s.trace + [Created])
            && (acts[k] == CreateReturns(false) ==>
                  s'.pc == Idle && !s'.control.created && s'.threads == s.threads && s'.trace == s.trace)
  {
    InvAt(states, acts, k);
    assert StepAt(states, acts, k);
  }

  /** A worker repeats its ioctl until it sees the stop flag or the ioctl fails, and then leaves for good. */
  lemma WorkersExactly(states: seq<Sys>, acts: seq<Action>, k: nat, i: nat)
    requires Run(states, acts) && k < |acts| && i < |states[k].threads|
    ensures var (s, s') := (states[k], states[k + 1]);
            && i < |s'.threads|
            && (acts[k] == WorkerTests(i) ==>
                  s'.threads[i] == (if s.control.stopping then Leaving else Issuing) && s'.trace == s.trace)
            && (acts[k].WorkerIoctl? && acts[k].i == i ==>
                  s'.threads[i] == (if acts[k].ok then Testing else Leaving) && s'.trace == s.trace + [Enable])
            && (acts[k] == WorkerLeaves(i) ==> s'.threads[i].Gone? && s'.control.finished)
            && (s.threads[i].Gone? ==> s'.threads[i].Gone?)
  {
    assert StepAt(states, acts, k);
  }

  /** One whole stop: nothing but the flag if the join fails, otherwise one disable. */
  predicate Stops(c: Control, answers: Answers, value: seq<Byte>, result: (Control, seq<Event>))
  {
    if c.created && !answers.join then
      result == (Control(true, true, c.finished || answers.leaves, c.fwlog), [])
    else
      && result.1 == [Disable(answers.disable)] && !result.0.created
      && result.0.stopping == (c.stopping || c.created)
      && result.0.fwlog == if answers.disable then value else c.fwlog
  }

  lemma WholeStop(c: Control, value: seq<Byte>, answers: Answers)
    ensures Stops(c, answers, value, Continue(BeginStop(c, Apply(value)), answers))
    ensures Stops(c, answers, c.fwlog, Continue(BeginStop(c, Final), answers))
  {
    StopThenApply(c, value, answers);
    if c.created {
      var stopping := c.(stopping := true);
      var waited := Waited(stopping, answers);
      assert Continue((stopping, Joining(Final)), answers) == Continue(AfterJoin(waited, Final, answers.join), answers);
    }
  }

  /** A whole check: what the controls and the log are afterwards, for every answer of the blocking calls. */
  lemma WholeCheck(c: Control, value: seq<Byte>, answers: Answers)
    ensures var r := CheckAll(c, value, answers);
            && (SaysYes(value) && c.created && !c.finished ==> r == (c, []))
            && (SaysYes(value) && c.created && c.finished && !answers.join ==> r == (c, []))
            && (SaysYes(value) && (c.created ==> c.finished && answers.join) ==>
                  if answers.create then r == (Control(true, false, false, B.Ascii("yes")), [Created])
                  else r == (Control(false, false, false, c.fwlog), []))
            && (!SaysYes(value) && value != c.fwlog ==> Stops(c, answers, value, r))
            && (!SaysYes(value) && value == c.fwlog ==> r == (c, []))
  {
    if SaysYes(value) {
      if c.created && c.finished {
        assert Continue((c, Reaping), answers) == Continue(AfterReap(Waited(c, answers), answers.join), answers);
      }
    } else if value != c.fwlog {
      WholeStop(c, value, answers);
    }
  }

  /** The end of main: logging is stopped if a worker was started or the recorded value says so. */
  lemma WholeShutdown(c: Control, answers: Answers)
    ensures var r := Continue(BeginShutdown(c), answers);
            if c.created || SaysYes(c.fwlog) then Stops(c, answers, c.fwlog, r) else r == (c, [])
  {
    WholeStop(c, c.fwlog, answers);
  }
}
