/** When the launcher's command loop ends, and with which value. */
module LoopLaws {
  import opened Common
  import opened WireCodec
  import opened CommandHandler
  import opened CommandLoop

  /** An input ends the loop with `v`: every failure except an interruption or an expired transaction. */
  predicate InputEnds(input: Input, session: nat, v: int)
  {
    match input
    case Quiet => false
    case PollFailed(status) => v == status && status != -4
    case Hangup => v == -19
    case ReadFailed(status) => v == status && status !in {-4, -11, -110}
    case Received(frame, world) =>
      match DecodeCommand(frame, session)
      case Refused(errno) => v == errno
      case Decoded(c) => v == Handle(c, world).rc && v !in {0, -116, -125, -110, -2}
  }

  /** A turn ends the loop with `v`: a stop request first, then the first result of the power worker, then the input. */
  predicate TurnEnds(turn: Turn, session: nat, checked: bool, v: int)
  {
    if turn.stop then v == 0
    else if !checked && turn.power.Finished? && turn.power.result != 0 then v == turn.power.result
    else InputEnds(turn.input, session, v)
  }

  lemma TurnEndsExactly(turn: Turn, session: nat, checked: bool, v: int)
    ensures Step(turn, session, checked).1 == Some(v) <==> TurnEnds(turn, session, checked, v)
  {
  }

  /** The power worker's result was already looked at before turn `i`. */
  ghost predicate CheckedBefore(turns: seq<Turn>, checked: bool, i: nat)
    requires i <= |turns|
  {
    checked || exists j :: 0 <= j < i && turns[j].power.Finished?
  }

  /** Turn `i` ends the loop with `v` and no turn before it ends the loop. */
  ghost predicate EndsAt(turns: seq<Turn>, session: nat, checked: bool, i: nat, v: int)
  {
    && i < |turns| && TurnEnds(turns[i], session, CheckedBefore(turns, checked, i), v)
    && forall j, u :: 0 <= j < i ==> !TurnEnds(turns[j], session, CheckedBefore(turns, checked, j), u)
  }

  lemma CheckedShift(turns: seq<Turn>, checked: bool, i: nat)
    requires 0 < i <= |turns|
    ensures CheckedBefore(turns, checked, i) <==>
            CheckedBefore(turns[1..], checked || turns[0].power.Finished?, i - 1)
  {
    if j :| 0 <= j < i && turns[j].power.Finished? {
      if j > 0 { assert turns[1..][j - 1] == turns[j]; }
    }
  }

  lemma EndsShift(turns: seq<Turn>, session: nat, checked: bool, i: nat, v: int)
    requires 0 < i < |turns| && forall u :: !TurnEnds(turns[0], session, checked, u)
    ensures EndsAt(turns, session, checked, i, v) <==>
            EndsAt(turns[1..], session, checked || turns[0].power.Finished?, i - 1, v)
  {
    var rest, later := turns[1..], checked || turns[0].power.Finished?;
    CheckedShift(turns, checked, i);
    if EndsAt(turns, session, checked, i, v) {
      forall j, u | 0 <= j < i - 1 ensures !TurnEnds(rest[j], session, CheckedBefore(rest, later, j), u) {
        assert !TurnEnds(turns[j + 1], session, CheckedBefore(turns, checked, j + 1), u);
        CheckedShift(turns, checked, j + 1);
      }
    }
    if EndsAt(rest, session, later, i - 1, v) {
      forall j, u | 0 <= j < i ensures !TurnEnds(turns[j], session, CheckedBefore(turns, checked, j), u) {
        if j > 0 {
          assert !TurnEnds(rest[j - 1], session, CheckedBefore(rest, later, j - 1), u);
          CheckedShift(turns, checked, j);
        } else {
          assert CheckedBefore(turns, checked, 0) == checked;
        }
      }
    }
  }

  /** The loop returns `v` exactly when `v` is what the first ending turn of the run ends it with. */
  lemma {:induction false} LoopEndsExactly(turns: seq<Turn>, session: nat, checked: bool, v: int)
    ensures Loop(turns, session, checked).ended == Some(v) <==> exists i: nat :: EndsAt(turns, session, checked, i, v)
    decreases |turns|
  {
    if turns != [] {
      var ended := Step(turns[0], session, checked).1;
      forall u ensures ended == Some(u) <==> TurnEnds(turns[0], session, checked, u) {
        TurnEndsExactly(turns[0], session, checked, u);
      }
      if ended.Some? {
        FirstTurnEnds(turns, session, checked, ended.value, v);
      } else {
        LaterTurnEnds(turns, session, checked, v);
      }
    }
  }

  lemma FirstTurnEnds(turns: seq<Turn>, session: nat, checked: bool, w: int, v: int)
    requires turns != [] && forall u :: TurnEnds(turns[0], session, checked, u) <==> u == w
    ensures v == w <==> exists i: nat :: EndsAt(turns, session, checked, i, v)
  {
    assert CheckedBefore(turns, checked, 0) == checked;
    if v == w { assert EndsAt(turns, session, checked, 0, v); }
    if i: nat :| EndsAt(turns, session, checked, i, v) { assert TurnEnds(turns[0], session, checked, w); }
  }

  lemma {:induction false} LaterTurnEnds(turns: seq<Turn>, session: nat, checked: bool, v: int)
    requires turns != [] && Step(turns[0], session, checked).1.None?
    requires forall u :: !TurnEnds(turns[0], session, checked, u)
    ensures Loop(turns, session, checked).ended == Some(v) <==> exists i: nat :: EndsAt(turns, session, checked, i, v)
    decreases |turns|, 0
  {
    var later := checked || turns[0].power.Finished?;
    LoopEndsExactly(turns[1..], session, later, v);
    assert CheckedBefore(turns, checked, 0) == checked;
    if i: nat :| EndsAt(turns, session, checked, i, v) { EndsShift(turns, session, checked, i, v); }
    if i: nat :| EndsAt(turns[1..], session, later, i, v) { EndsShift(turns, session, checked, i + 1, v); }
  }

  /** Turn `k` gets as far as polling: no turn before it ends the loop, no stop, no failed power result. */
  ghost predicate Polls(turns: seq<Turn>, session: nat, checked: bool, k: nat)
  {
    && k < |turns| && !turns[k].stop
    && (turns[k].power.Finished? && turns[k].power.result != 0 ==> CheckedBefore(turns, checked, k))
    && forall j, u :: 0 <= j < k ==> !TurnEnds(turns[j], session, CheckedBefore(turns, checked, j), u)
  }

  lemma PollsShift(turns: seq<Turn>, session: nat, checked: bool, k: nat)
    requires 0 < k < |turns| && forall u :: !TurnEnds(turns[0], session, checked, u)
    ensures Polls(turns, session, checked, k) <==>
            Polls(turns[1..], session, checked || turns[0].power.Finished?, k - 1)
  {
    var rest, later := turns[1..], checked || turns[0].power.Finished?;
    CheckedShift(turns, checked, k);
    if Polls(turns, session, checked, k) {
      forall j, u | 0 <= j < k - 1 ensures !TurnEnds(rest[j], session, CheckedBefore(rest, later, j), u) {
        assert !TurnEnds(turns[j + 1], session, CheckedBefore(turns, checked, j + 1), u);
        CheckedShift(turns, checked, j + 1);
      }
    }
    if Polls(rest, session, later, k - 1) {
      forall j, u | 0 <= j < k ensures !TurnEnds(turns[j], session, CheckedBefore(turns, checked, j), u) {
        if j > 0 {
          assert !TurnEnds(rest[j - 1], session, CheckedBefore(rest, later, j - 1), u);
          CheckedShift(turns, checked, j);
        } else {
          assert CheckedBefore(turns, checked, 0) == checked;
        }
      }
    }
  }

  /** The turns that poll are the first ones, up to the turn that ends the loop. */
  lemma {:induction false} PolledExactly(turns: seq<Turn>, session: nat, checked: bool, k: nat)
    ensures k < Polled(turns, session, checked) <==> Polls(turns, session, checked, k)
    decreases |turns|
  {
    if turns != [] {
      var ended := Step(turns[0], session, checked).1;
      assert CheckedBefore(turns, checked, 0) == checked;
      forall u ensures ended == Some(u) <==> TurnEnds(turns[0], session, checked, u) {
        TurnEndsExactly(turns[0], session, checked, u);
      }
      if ended.Some? {
        if k > 0 { assert TurnEnds(turns[0], session, CheckedBefore(turns, checked, 0), ended.value); }
      } else if 0 < k < |turns| {
        PollsShift(turns, session, checked, k);
        PolledExactly(turns[1..], session, checked || turns[0].power.Finished?, k - 1);
      }
    }
  }
}
