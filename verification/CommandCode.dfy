/** handle_command and command_loop as the code runs them: record arrays, the frame buffer and the loop state. */
module CommandCode {
  import opened Common
  import opened Bytes
  import opened Errno
  import opened WireCodec
  import WireCode
  import P = PatchSet
  import D = FirmwareDiscovery
  import R = RomDiscovery
  import DiscoveryCode
  import opened CommandHandler
  import opened CommandLoop

  const BLANK: Record := Record(0, Zeros(4), Zeros(NAME_SIZE))

  /** The chip and version queries and the search they allow. */
  method Query(text: seq<Byte>, w: World) returns (s: Search)
    ensures s == RunSearch(text, w)
  {
    var normal, isRom := text == SEARCH_PATCH, text == SEARCH_ROM;
    if !normal && !isRom { return Unanswered(-EOPNOTSUPP); }
    if w.chip.Failed? { return Unanswered(w.chip.status); }
    if !SupportedChip(w.chip.value) { return Unanswered(-ENODEV); }
    if w.version.Failed? { return Unanswered(w.version.status); }
    if w.version.value > 65535 { return Unanswered(-ERANGE); }
    if normal {
      var found := DiscoveryCode.FirmwareSearch(w.directory, w.version.value);
      return if found.Found? then Patches(found.value) else Unanswered(found.errno);
    }
    var roms := DiscoveryCode.RomSearch(w.directory, w.version.value);
    return if roms.Found? then Roms(roms.value) else Unanswered(roms.errno);
  }

  method FillPatches(f: D.Firmware, records: array<Record>) returns (count: nat)
    requires D.FirmwareShape(f) && f.patches.count <= P.MAX_PATCHES && records.Length == PATCH_MAX
    modifies records
    ensures count == f.patches.count && records[..count] == PatchRecords(f, count)
    ensures forall k :: count <= k < records.Length ==> records[k] == old(records[k])
  {
    count := f.patches.count;
    var i := 0;
    while i < count
      invariant 0 <= i <= count
      invariant records[..i] == PatchRecords(f, i)
      invariant forall k :: i <= k < records.Length ==> records[k] == old(records[k])
    {
      var info := f.patches.records[i];
      records[i] := Record(info.sequence, info.address, info.name);
      i := i + 1;
    }
  }

  /** Gathers the seen types in order, counting them. */
  method FillRoms(f: R.RomSet, records: array<Record>) returns (count: nat)
    requires R.RomShape(f) && records.Length == PATCH_MAX
    modifies records
    ensures count <= R.ROM_TYPES && records[..count] == RomRecords(f, R.ROM_TYPES)
    ensures forall k :: count <= k < records.Length ==> records[k] == old(records[k])
  {
    count := 0;
    var t := 0;
    while t < R.ROM_TYPES
      invariant 0 <= count <= t <= R.ROM_TYPES
      invariant records[..count] == RomRecords(f, t)
      invariant forall k :: count <= k < records.Length ==> records[k] == old(records[k])
    {
      if Bit(f.seen, t) {
        ghost var before := records[..count];
        records[count] := Record(t, f.records[t].address, f.records[t].name);
        count := count + 1;
        assert records[..count] == before + [records[count - 1]];
      }
      t := t + 1;
    }
  }

  /** Fills the frame with the list, or with the status that explains why there is none. */
  method Compose(c: Command, answer: Answer, records: array<Record>, count: nat, frame: array<Byte>)
    returns (size: int, listed: bool)
    requires ValidCommand(c) && frame.Length == WRITE_MAX && count <= records.Length == PATCH_MAX
    requires forall i :: 0 <= i < records.Length ==> RecordShape(records[i])
    requires answer.List? ==> answer.records == records[..count]
    modifies frame
    ensures 0 <= size <= WRITE_MAX && Prepare(c, answer) == Frame(frame[..size], listed)
  {
    listed := false;
    var status := 0;
    if answer.List? {
      size := ComposeList(c, answer.kind, records, count, frame);
      listed := size >= 0;
      status := size;
    } else {
      status := answer.status;
    }
    if !listed {
      size := WireCode.ReplyStatus(Some(c), status, frame, WRITE_MAX);
      assert frame[..size] == EncodeStatus(c, status);
    }
  }

  method ComposeList(c: Command, kind: nat, records: array<Record>, count: nat, frame: array<Byte>) returns (size: int)
    requires ValidCommand(c) && frame.Length == WRITE_MAX && count <= records.Length
    requires forall i :: 0 <= i < records.Length ==> RecordShape(records[i])
    modifies frame
    ensures size == WireCode.ListResult(Some(c), kind, Some(records[..count]), count, true, WRITE_MAX)
    ensures -4095 <= size <= WRITE_MAX
    ensures size >= 0 ==> frame[..size] == EncodeList(c, kind, records[..count])
  {
    ghost var rs := records[..count];
    assert WireCode.Named(Some(records[..]), count) == rs == WireCode.Named(Some(rs), count);
    size := WireCode.ReplyList(Some(c), kind, Some(records[..]), count, frame, WRITE_MAX);
    WireCode.ListErrorsAreStatuses(Some(c), kind, Some(records[..]), count, true, WRITE_MAX);
    if size >= 0 { assert frame[..size] == EncodeList(c, kind, rs); }
  }

  method PrepareRecords(s: Search, records: array<Record>) returns (count: nat)
    requires s.Patches? ==> D.FirmwareShape(s.firmware) && s.firmware.patches.count <= P.MAX_PATCHES
    requires s.Roms? ==> R.RomShape(s.roms)
    requires records.Length == PATCH_MAX && forall k :: 0 <= k < PATCH_MAX ==> records[k] == BLANK
    modifies records
    ensures count <= PATCH_MAX && if AnswerOf(s).List? then records[..count] == AnswerOf(s).records else count == 0
    ensures forall k :: count <= k < PATCH_MAX ==> records[k] == BLANK
  {
    count := 0;
    match s
    case Patches(f) => count := FillPatches(f, records);
    case Roms(f) => count := FillRoms(f, records);
    case Unanswered(_) =>
  }

  /** send_frame, then publication of what was accepted. */
  method Finish(s: Search, frame: seq<Byte>, listed: bool, write: Write) returns (e: Effects)
    requires s.Patches? ==> D.FirmwareShape(s.firmware)
    ensures e == Deliver(s, Frame(frame, listed), write)
  {
    var sent := SendResult(frame, write);
    if sent != 0 { return Effects([frame], [], sent); }
    var published := [];
    if listed && s.Patches? { published := published + [(PatchVersion, CStr(s.firmware.versions[0]))]; }
    if listed && s.Roms? && s.roms.hasWifi { published := published + [(WifiVersion, CStr(s.roms.wifiVersion))]; }
    if listed && s.Roms? && s.roms.hasBt { published := published + [(BtVersion, CStr(s.roms.btVersion))]; }
    return Effects([frame], published, 0);
  }

  /** handle_command. */
  method HandleCommand(c: Command, w: World) returns (e: Effects)
    requires ValidCommand(c)
    ensures e == Handle(c, w)
  {
    var frame := new Byte[WRITE_MAX](_ => 0);
    var records := new Record[PATCH_MAX](_ => BLANK);
    var s := Query(c.text, w);
    EverySearchIsAnswerable(c.text, w);
    var count := PrepareRecords(s, records);
    var answer := AnswerOf(s);
    forall i | 0 <= i < PATCH_MAX ensures RecordShape(records[i]) {
      if i < count { assert records[i] == answer.records[i]; }
    }
    var size, listed := Compose(c, answer, records, count, frame);
    e := Finish(s, frame[..size], listed, w.write);
  }

  /** What the turns would do one by one, the first of them with this `checked`. */
  ghost function Steps(turns: seq<Turn>, session: nat,
                       checked: bool): (r: seq<(Option<(Command, Effects)>, Option<int>)>)
    ensures |r| == |turns|
  {
    if turns == [] then []
    else [Step(turns[0], session, checked)] + Steps(turns[1..], session, checked || turns[0].power.Finished?)
  }

  /** Taking steps until one ends the loop. */
  ghost function Take(steps: seq<(Option<(Command, Effects)>, Option<int>)>): Outcome
  {
    if steps == [] then Outcome([], None)
    else if steps[0].1.Some? then Outcome(Noted(steps[0].0), steps[0].1)
    else Take(steps[1..]).(log := Noted(steps[0].0) + Take(steps[1..]).log)
  }

  lemma {:induction false} LoopTakesSteps(turns: seq<Turn>, session: nat, checked: bool)
    ensures Loop(turns, session, checked) == Take(Steps(turns, session, checked))
    decreases |turns|
  {
    if turns != [] { LoopTakesSteps(turns[1..], session, checked || turns[0].power.Finished?); }
  }

  /** Whether the power worker's result was looked at before turn `i`. */
  function CheckedBefore(turns: seq<Turn>, i: nat): bool
    requires i <= |turns|
  {
    i > 0 && (CheckedBefore(turns, i - 1) || turns[i - 1].power.Finished?)
  }

  lemma {:induction false} StepAt(turns: seq<Turn>, session: nat, checked: bool, i: nat)
    requires i < |turns|
    ensures Steps(turns, session, checked)[i] == Step(turns[i], session, checked || CheckedBefore(turns, i))
    decreases |turns|
  {
    if i > 0 {
      StepAt(turns[1..], session, checked || turns[0].power.Finished?, i - 1);
      CheckedBeforeTail(turns, i);
    }
  }

  lemma {:induction false} CheckedBeforeTail(turns: seq<Turn>, i: nat)
    requires 0 < i <= |turns|
    ensures CheckedBefore(turns, i) == (turns[0].power.Finished? || CheckedBefore(turns[1..], i - 1))
    decreases i
  {
    if i > 1 { CheckedBeforeTail(turns, i - 1); }
  }

  /** command_loop, over the turns it is given. */
  method RunLoop(turns: seq<Turn>, session: nat) returns (log: seq<(Command, Effects)>, ended: Option<int>)
    ensures Outcome(log, ended) == Loop(turns, session, false)
  {
    forall i | 0 <= i < |turns| ensures IsStep(Steps(turns, session, false), turns, session, i) {
      StepAt(turns, session, false, i);
    }
    log, ended := RunSteps(turns, session, Steps(turns, session, false));
    LoopTakesSteps(turns, session, false);
  }

  ghost predicate IsStep(steps: seq<(Option<(Command, Effects)>, Option<int>)>, turns: seq<Turn>, session: nat, i: nat)
    requires i < |steps| == |turns|
  {
    steps[i] == Step(turns[i], session, CheckedBefore(turns, i))
  }

  /** After `i` steps with this log: the loop has ended, or the rest is still ahead. */
  ghost predicate Ahead(steps: seq<(Option<(Command, Effects)>, Option<int>)>, i: nat, log: seq<(Command, Effects)>,
                        ended: Option<int>)
    requires i <= |steps|
  {
    if ended.Some? then Take(steps) == Outcome(log, ended)
    else Take(steps) == Take(steps[i..]).(log := log + Take(steps[i..]).log)
  }

  lemma TakeOne(steps: seq<(Option<(Command, Effects)>, Option<int>)>, i: nat, log: seq<(Command, Effects)>)
    requires i < |steps| && Ahead(steps, i, log, None)
    ensures Ahead(steps, i + 1, log + Noted(steps[i].0), steps[i].1)
  {
    assert steps[i..][0] == steps[i] && steps[i..][1..] == steps[i + 1..];
  }

  method RunSteps(turns: seq<Turn>, session: nat, ghost steps: seq<(Option<(Command, Effects)>, Option<int>)>)
    returns (log: seq<(Command, Effects)>, ended: Option<int>)
    requires |steps| == |turns|
    requires forall i {:trigger IsStep(steps, turns, session, i)} ::
               0 <= i < |turns| ==> IsStep(steps, turns, session, i)
    ensures Outcome(log, ended) == Take(steps)
  {
    log, ended := [], None;
    var checked := false;
    var i := 0;
    while i < |turns| && ended.None?
      invariant 0 <= i <= |turns| && checked == CheckedBefore(turns, i)
      invariant Ahead(steps, i, log, ended)
    {
      assert IsStep(steps, turns, session, i);
      var handled, rc := TakeTurn(turns[i], session, checked);
      checked := checked || turns[i].power.Finished?;
      TakeOne(steps, i, log);
      log := log + Noted(handled);
      ended := rc;
      i := i + 1;
    }
  }

  /** One turn: the stop flag, the power worker's result, then the input. */
  method TakeTurn(turn: Turn, session: nat, checked: bool)
    returns (handled: Option<(Command, Effects)>, rc: Option<int>)
    ensures (handled, rc) == Step(turn, session, checked)
  {
    if turn.stop { return None, Some(0); }
    if turn.power.Finished? && !checked && turn.power.result != 0 { return None, Some(turn.power.result); }
    handled, rc := TakeInput(turn.input, session);
  }

  /** The part of a turn after the optional controls: poll, read, decode, handle. */
  method TakeInput(input: Input, session: nat) returns (handled: Option<(Command, Effects)>, rc: Option<int>)
    ensures (handled, rc) == InputStep(input, session)
  {
    match input
    case Quiet => return None, None;
    case PollFailed(status) => return None, if status == -EINTR then None else Some(status);
    case Hangup => return None, Some(-ENODEV);
    case ReadFailed(status) =>
      return None, if status == -EINTR || status == -EAGAIN || status == -ETIMEDOUT then None else Some(status);
    case Received(frame, world) =>
      var buffer := new Byte[|frame|](i requires 0 <= i < |frame| => frame[i]);
      var command := new WireCode.CommandBuffer();
      assert buffer[..|frame|] == frame;
      var result := WireCode.DecodeFrame(buffer, |frame|, session, command);
      DecodeErrorsAreErrors(frame, session);
      if result != 0 { return None, Some(result); }
      var c := Command(command.session, command.transaction, command.text);
      DecodeAcceptsExactlyEncodings(frame, session, c);
      var e := HandleCommand(c, world);
      return Some((c, e)), if e.rc == 0 || Expired(e.rc) then None else Some(e.rc);
  }

  lemma DecodeErrorsAreErrors(frame: seq<Byte>, session: nat)
    ensures DecodeCommand(frame, session).Refused? ==> DecodeCommand(frame, session).errno != 0
  {
  }
}
