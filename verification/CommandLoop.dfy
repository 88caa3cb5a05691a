/** The launcher's command loop over every possible sequence of polls, reads and worker outcomes. */
module CommandLoop {
  import opened Common
  import opened Bytes
  import opened Errno
  import opened WireCodec
  import opened CommandHandler
  import P = PatchSet

  datatype Power = Working | Finished(result: Status)

  datatype Input =
    | Quiet
    | PollFailed(status: Failure)
    | Hangup
    | ReadFailed(status: Failure)
    | Received(frame: seq<Byte>, world: World)

  /** What one turn of the loop sees. */
  datatype Turn = Turn(stop: bool, power: Power, input: Input)

  /** The commands handled with their effects, and the return value once the loop has ended. */
  datatype Outcome = Outcome(log: seq<(Command, Effects)>, ended: Option<int>)

  /** Errors that only say the transaction has expired. */
  predicate Expired(rc: int) { rc == -ESTALE || rc == -ECANCELED || rc == -ETIMEDOUT || rc == -ENOENT }

  predicate PowerFailed(power: Power, checked: bool) { power.Finished? && !checked && power.result != 0 }

  /** The command of a turn that polls, with its effects. */
  function HandledOn(input: Input, session: nat): Option<(Command, Effects)>
  {
    if !input.Received? then None
    else
      match DecodeCommand(input.frame, session)
      case Refused(_) => None
      case Decoded(c) => Some((c, Handle(c, input.world)))
  }

  /** The return value that an input without a command forces. */
  function InputError(input: Input, session: nat): Option<int>
  {
    match input
    case Quiet => None
    case PollFailed(status) => if status == -EINTR then None else Some(status)
    case Hangup => Some(-ENODEV)
    case ReadFailed(status) =>
      if status == -EINTR || status == -EAGAIN || status == -ETIMEDOUT then None else Some(status)
    case Received(frame, _) =>
      match DecodeCommand(frame, session)
      case Refused(errno) => Some(errno)
      case Decoded(_) => None
  }

  /** Poll, read, decode and handle. */
  function InputStep(input: Input, session: nat): (Option<(Command, Effects)>, Option<int>)
  {
    var handled := HandledOn(input, session);
    if handled.None? then (None, InputError(input, session))
    else
      var rc := handled.value.1.rc;
      (handled, if rc == 0 || Expired(rc) then None else Some(rc))
  }

  /** One turn: None to go on, or the return value; with the command handled, if any. */
  function Step(turn: Turn, session: nat, checked: bool): (Option<(Command, Effects)>, Option<int>)
  {
    if turn.stop then (None, Some(0))
    else if PowerFailed(turn.power, checked) then (None, Some(turn.power.result))
    else InputStep(turn.input, session)
  }

  function Noted(handled: Option<(Command, Effects)>): seq<(Command, Effects)>
  {
    if handled.Some? then [handled.value] else []
  }

  /** command_loop from a given state on. */
  function Loop(turns: seq<Turn>, session: nat, checked: bool): Outcome
  {
    if turns == [] then Outcome([], None)
    else
      var (handled, ended) := Step(turns[0], session, checked);
      if ended.Some? then Outcome(Noted(handled), ended)
      else
        var rest := Loop(turns[1..], session, checked || turns[0].power.Finished?);
        rest.(log := Noted(handled) + rest.log)
  }

  // ---------------------------------------------------------------- theorems over every run

  /** One handled command of this session: received on some turn, answered once, published only if accepted. */
  ghost predicate WellHandled(entry: (Command, Effects), turns: seq<Turn>, session: nat)
  {
    exists i :: 0 <= i < |turns| && HandledAt(entry, turns[i], session)
  }

  ghost predicate HandledAt(entry: (Command, Effects), turn: Turn, session: nat)
  {
    var (c, e) := entry;
    && !turn.stop && turn.input.Received? && turn.input.frame == EncodeCommand(c)
    && ValidCommand(c) && c.session == session
    && AnsweredOnce(c, turn.input.world, e)
  }

  ghost predicate AnsweredOnce(c: Command, w: World, e: Effects)
  {
    var s := RunSearch(c.text, w);
    && (s.Patches? ==> s.firmware.patches.count <= P.MAX_PATCHES)
    && |e.frames| == 1 && |e.frames[0]| <= WRITE_MAX && Answers(c, AnswerOf(s), e.frames[0])
    && (e.rc == 0 <==> w.write == Wrote(|e.frames[0]|))
    && e.published == if e.rc == 0 then Publications(s) else []
  }

  lemma StepHandles(turn: Turn, session: nat, checked: bool)
    ensures Step(turn, session, checked).0.Some? ==> HandledAt(Step(turn, session, checked).0.value, turn, session)
  {
    var handled := Step(turn, session, checked).0;
    if handled.Some? {
      var c := handled.value.0;
      DecodeAcceptsExactlyEncodings(turn.input.frame, session, c);
      HandledCommandAnswers(c, turn.input.world);
    }
  }

  lemma HandledCommandAnswers(c: Command, w: World)
    requires ValidCommand(c)
    ensures AnsweredOnce(c, w, Handle(c, w))
  {
    EveryCommandIsAnsweredOnce(c, w);
    PublishedOnlyWhenAccepted(c, w);
  }

  /** The log is the first turn's command, if any, followed by that of the turns after it. */
  lemma LogSplits(turns: seq<Turn>, session: nat, checked: bool)
    requires turns != []
    ensures var (handled, ended) := Step(turns[0], session, checked);
            var rest := Loop(turns[1..], session, checked || turns[0].power.Finished?).log;
            Loop(turns, session, checked).log == Noted(handled) + if ended.Some? then [] else rest
  {
  }

  /** Which turn an entry of the log comes from. */
  lemma {:induction false} TurnOf(turns: seq<Turn>, session: nat, checked: bool, k: nat) returns (i: nat)
    requires k < |Loop(turns, session, checked).log|
    ensures i < |turns| && HandledAt(Loop(turns, session, checked).log[k], turns[i], session)
    decreases |turns|
  {
    LogSplits(turns, session, checked);
    StepHandles(turns[0], session, checked);
    var first := |Noted(Step(turns[0], session, checked).0)|;
    if k < first {
      i := 0;
    } else {
      i := TurnOf(turns[1..], session, checked || turns[0].power.Finished?, k - first);
      i := i + 1;
    }
  }

  /** Over every run, each handled command was received in this session and answered exactly once. */
  lemma EveryHandledCommandIsAnswered(turns: seq<Turn>, session: nat, checked: bool)
    ensures forall k :: 0 <= k < |Loop(turns, session, checked).log| ==>
              WellHandled(Loop(turns, session, checked).log[k], turns, session)
  {
    forall k | 0 <= k < |Loop(turns, session, checked).log|
      ensures WellHandled(Loop(turns, session, checked).log[k], turns, session)
    {
      var i := TurnOf(turns, session, checked, k);
    }
  }

  function AllHandled(turns: seq<Turn>, session: nat): seq<(Command, Effects)>
  {
    if turns == [] then [] else Noted(HandledOn(turns[0].input, session)) + AllHandled(turns[1..], session)
  }

  /** How many turns get as far as polling. */
  function Polled(turns: seq<Turn>, session: nat, checked: bool): (n: nat)
    ensures n <= |turns|
  {
    if turns == [] || turns[0].stop || PowerFailed(turns[0].power, checked) then 0
    else if Step(turns[0], session, checked).1.Some? then 1
    else 1 + Polled(turns[1..], session, checked || turns[0].power.Finished?)
  }

  /** No command is lost, repeated or reordered: the log is the decodable frames of the polled turns, in order. */
  lemma {:induction false} CommandsAreHandledInOrder(turns: seq<Turn>, session: nat, checked: bool)
    ensures Loop(turns, session, checked).log == AllHandled(turns[..Polled(turns, session, checked)], session)
    decreases |turns|
  {
    var n := Polled(turns, session, checked);
    if n > 0 {
      assert turns[..n][0] == turns[0] && turns[..n][1..] == turns[1..][..n - 1];
      assert Step(turns[0], session, checked).0 == HandledOn(turns[0].input, session);
      if Step(turns[0], session, checked).1.None? {
        CommandsAreHandledInOrder(turns[1..], session, checked || turns[0].power.Finished?);
      }
    }
  }

  /** A command whose reply the kernel refuses as expired neither ends the loop nor publishes anything. */
  lemma ExpiredRepliesAreDiscarded(turn: Turn, session: nat, checked: bool)
    ensures var (handled, ended) := Step(turn, session, checked);
            handled.Some? && Expired(handled.value.1.rc) ==> ended.None? && handled.value.1.published == []
  {
    StepHandles(turn, session, checked);
  }

  /** The loop returns 0 only when a stop was requested. */
  lemma {:induction false} ZeroMeansStopped(turns: seq<Turn>, session: nat, checked: bool)
    requires Loop(turns, session, checked).ended == Some(0)
    ensures exists i :: 0 <= i < |turns| && turns[i].stop
    decreases |turns|
  {
    var (handled, ended) := Step(turns[0], session, checked);
    if ended.None? {
      ZeroMeansStopped(turns[1..], session, checked || turns[0].power.Finished?);
      var i :| 0 <= i < |turns[1..]| && turns[1..][i].stop;
      assert turns[i + 1].stop;
    } else {
      StepZero(turns[0], session, checked);
    }
  }

  lemma StepZero(turn: Turn, session: nat, checked: bool)
    requires Step(turn, session, checked).1 == Some(0)
    ensures turn.stop
  {
  }
}
