/**
 The codec of protocol.c as it fills caller-owned buffers. Validation comes first: an error leaves the whole buffer
 as it was, a success overwrites exactly the encoded length.
 */
module WireCode {
  import opened Common
  import opened Bytes
  import opened Errno
  import opened WireCodec

  /** `buffer` with `bytes` written over it at `at`. */
  function Patch(buffer: seq<Byte>, at: nat, bytes: seq<Byte>): (r: seq<Byte>)
    requires at + |bytes| <= |buffer|
    ensures |r| == |buffer|
  {
    buffer[..at] + bytes + buffer[at + |bytes|..]
  }

  /** Adjacent writes join. */
  lemma PatchPatch(buffer: seq<Byte>, at: nat, a: seq<Byte>, b: seq<Byte>)
    requires at + |a| + |b| <= |buffer|
    ensures Patch(Patch(buffer, at, a), at + |a|, b) == Patch(buffer, at, a + b)
  {
    var once := Patch(buffer, at, a);
    assert once[..at + |a|] == buffer[..at] + a;
    assert once[at + |a| + |b|..] == buffer[at + |a| + |b|..];
  }

  /** write16, write32 and write64: `n` bytes of `value`. */
  method WriteLE(frame: array<Byte>, at: nat, value: nat, n: nat)
    requires at + n <= frame.Length
    modifies frame
    ensures frame[..] == Patch(old(frame[..]), at, LE(value, n))
  {
    var v := value;
    ghost var was := frame[..];
    ghost var bytes := LE(value, n);
    var i := 0;
    while i < n
      invariant 0 <= i <= n
      invariant frame[..] == Patch(was, at, bytes[..i])
      invariant bytes[i..] == LE(v, n - i)
    {
      StoreNext(was, at, bytes, i);
      assert bytes[i] == bytes[i..][0] == v % 256;
      frame[at + i] := v % 256;
      v := v / 256;
      i := i + 1;
      assert bytes[i..] == bytes[i - 1..][1..];
    }
    assert bytes[..i] == bytes;
  }

  /** Storing one more byte of `bytes` extends the patch. */
  lemma StoreNext(was: seq<Byte>, at: nat, bytes: seq<Byte>, i: nat)
    requires i < |bytes| && at + |bytes| <= |was|
    ensures Patch(was, at, bytes[..i])[at + i := bytes[i]] == Patch(was, at, bytes[..i + 1])
  {
  }

  /** memcpy of `bytes` into the buffer. */
  method Copy(frame: array<Byte>, at: nat, bytes: seq<Byte>)
    requires at + |bytes| <= frame.Length
    modifies frame
    ensures frame[..] == Patch(old(frame[..]), at, bytes)
  {
    ghost var was := frame[..];
    var i := 0;
    while i < |bytes|
      invariant 0 <= i <= |bytes|
      invariant frame[..] == Patch(was, at, bytes[..i])
    {
      StoreNext(was, at, bytes, i);
      frame[at + i] := bytes[i];
      i := i + 1;
    }
    assert bytes[..i] == bytes;
  }

  /** reply_header. */
  method WriteHeader(frame: array<Byte>, h: Header)
    requires HEADER_SIZE <= frame.Length
    modifies frame
    ensures frame[..] == Patch(old(frame[..]), 0, EncodeHeader(h))
  {
    ghost var was := frame[..];
    WriteLE(frame, 0, h.magic, 4);
    WriteLE(frame, 4, h.version, 2);
    PatchPatch(was, 0, LE(h.magic, 4), LE(h.version, 2));
    WriteLE(frame, 6, h.kind, 2);
    PatchPatch(was, 0, LE(h.magic, 4) + LE(h.version, 2), LE(h.kind, 2));
    WriteIdentity(frame, h);
    PatchPatch(was, 0, EncodeKind(h), EncodeIdentity(h));
    WriteOutcome(frame, h);
    PatchPatch(was, 0, EncodeKind(h) + EncodeIdentity(h), EncodeOutcome(h));
  }

  method WriteIdentity(frame: array<Byte>, h: Header)
    requires HEADER_SIZE <= frame.Length
    modifies frame
    ensures frame[..] == Patch(old(frame[..]), 8, EncodeIdentity(h))
  {
    ghost var was := frame[..];
    WriteLE(frame, 8, h.session, 8);
    WriteLE(frame, 16, h.transaction, 8);
    PatchPatch(was, 8, LE(h.session, 8), LE(h.transaction, 8));
  }

  method WriteOutcome(frame: array<Byte>, h: Header)
    requires HEADER_SIZE <= frame.Length
    modifies frame
    ensures frame[..] == Patch(old(frame[..]), 24, EncodeOutcome(h))
  {
    ghost var was := frame[..];
    WriteLE(frame, 24, h.length, 4);
    WriteLE(frame, 28, h.result, 4);
    PatchPatch(was, 24, LE(h.length, 4), LE(h.result, 4));
  }

  /** What wmt_reply_status returns. */
  function StatusResult(command: Option<Command>, result: int, hasFrame: bool, capacity: nat): int
  {
    if command.None? || command.value.session == 0 || command.value.transaction == 0 || !hasFrame
        || !(-4095 <= result <= 0)
    then -EINVAL
    else if capacity < HEADER_SIZE then -EMSGSIZE
    else HEADER_SIZE
  }

  /** wmt_reply_status. */
  method ReplyStatus(command: Option<Command>, result: int, frame: array?<Byte>, capacity: nat) returns (size: int)
    requires frame != null ==> capacity <= frame.Length
    modifies frame
    ensures size == StatusResult(command, result, frame != null, capacity)
    ensures size < 0 ==> frame != null ==> frame[..] == old(frame[..])
    ensures size >= 0 ==> frame != null && command.Some? && -4095 <= result <= 0 && size == HEADER_SIZE <= frame.Length
    ensures size >= 0 ==> frame[..] == Patch(old(frame[..]), 0, EncodeStatus(command.value, result))
  {
    if command.None? || command.value.session == 0 || command.value.transaction == 0 || frame == null
       || result > 0 || result < -4095 { return -EINVAL; }
    if capacity < HEADER_SIZE { return -EMSGSIZE; }
    WriteHeader(frame, ReplyHeader(command.value, KIND_STATUS, 0, result));
    return HEADER_SIZE;
  }

  /** The checks wmt_reply_list makes before it looks at a record; 0 means none fails. */
  function ArgumentError(command: Option<Command>, kind: nat, hasRecords: bool, count: nat, hasFrame: bool,
                         capacity: nat): int
  {
    if command.None? || command.value.session == 0 || command.value.transaction == 0 || !hasFrame
        || (count != 0 && !hasRecords)
    then -EINVAL
    else if kind == KIND_PATCH_LIST && count == 0 then -EINVAL
    else if kind != KIND_PATCH_LIST && kind != KIND_ROM_LIST then -EINVAL
    else if count > (if kind == KIND_PATCH_LIST then PATCH_MAX else ROM_MAX) then -E2BIG
    else if capacity < HEADER_SIZE + ListLength(count) then -EMSGSIZE
    else 0
  }

  /** The records a call names; none when the pointer is NULL. */
  function Named(records: Option<seq<Record>>, count: nat): seq<Record>
    requires records.Some? ==> count <= |records.value|
  {
    if records.Some? then records.value[..count] else []
  }

  /** What wmt_reply_list returns. */
  function ListResult(command: Option<Command>, kind: nat, records: Option<seq<Record>>, count: nat,
                      hasFrame: bool, capacity: nat): int
    requires records.Some? ==> count <= |records.value|
  {
    var bad := ArgumentError(command, kind, records.Some?, count, hasFrame, capacity);
    var error := CheckRecords(kind, Named(records, count), 0, 0);
    if bad != 0 then bad else if error != 0 then error else HEADER_SIZE + ListLength(count)
  }

  method CheckArguments(command: Option<Command>, kind: nat, hasRecords: bool, count: nat, hasFrame: bool,
                        capacity: nat)
    returns (error: int)
    ensures error == ArgumentError(command, kind, hasRecords, count, hasFrame, capacity)
  {
    if command.None? || command.value.session == 0 || command.value.transaction == 0 || !hasFrame
       || (count != 0 && !hasRecords) { return -EINVAL; }
    var maximum;
    if kind == KIND_PATCH_LIST {
      if count == 0 { return -EINVAL; }
      maximum := PATCH_MAX;
    } else if kind == KIND_ROM_LIST {
      maximum := ROM_MAX;
    } else {
      return -EINVAL;
    }
    if count > maximum { return -E2BIG; }
    if capacity < HEADER_SIZE + ListLength(count) { return -EMSGSIZE; }
    return 0;
  }

  /** The validation loop over the bitmask. */
  method Validate(kind: nat, records: seq<Record>) returns (error: int)
    ensures error == CheckRecords(kind, records, 0, 0)
  {
    var seen := 0;
    var i := 0;
    while i < |records|
      invariant 0 <= i <= |records|
      invariant CheckRecords(kind, records, 0, 0) == CheckRecords(kind, records, i, seen)
    {
      var index := records[i].index;
      if kind == KIND_PATCH_LIST {
        if index == 0 || index > |records| { return -EINVAL; }
        index := index - 1;
      } else if index >= ROM_MAX {
        return -EINVAL;
      }
      if Bit(seen, index) { return -EEXIST; }
      if !GoodName(records[i].name) { return -EINVAL; }
      seen := SetBit(seen, index);
      i := i + 1;
    }
    return 0;
  }

  method WriteRecord(frame: array<Byte>, at: nat, r: Record)
    requires RecordShape(r) && at + RECORD_SIZE <= frame.Length
    modifies frame
    ensures frame[..] == Patch(old(frame[..]), at, EncodeRecord(r))
  {
    ghost var was := frame[..];
    var name := CStr(r.name);
    WriteLE(frame, at, r.index, 4);
    Copy(frame, at + 4, r.address);
    PatchPatch(was, at, LE(r.index, 4), r.address);
    var padded := name + Zeros(NAME_SIZE - |name|);
    Copy(frame, at + 8, padded);
    PatchPatch(was, at, LE(r.index, 4) + r.address, padded);
    assert LE(r.index, 4) + r.address + padded == EncodeRecord(r);
  }

  /** wmt_reply_list. */
  method ReplyList(command: Option<Command>, kind: nat, records: Option<seq<Record>>, count: nat,
                   frame: array?<Byte>, capacity: nat) returns (size: int)
    requires frame != null ==> capacity <= frame.Length
    requires records.Some? ==> count <= |records.value|
    requires records.Some? ==> forall i :: 0 <= i < |records.value| ==> RecordShape(records.value[i])
    modifies frame
    ensures size == ListResult(command, kind, records, count, frame != null, capacity)
    ensures size < 0 ==> frame != null ==> frame[..] == old(frame[..])
    ensures size >= 0 ==>
              && frame != null && command.Some? && (count != 0 ==> records.Some?)
              && size == |EncodeList(command.value, kind, Named(records, count))| <= frame.Length
              && frame[..] == Patch(old(frame[..]), 0, EncodeList(command.value, kind, Named(records, count)))
  {
    size := CheckArguments(command, kind, records.Some?, count, frame != null, capacity);
    if size != 0 { return; }
    var rs := Named(records, count);
    assert |rs| == count;
    size := Validate(kind, rs);
    if size != 0 {
      RecordErrorsAreNegative(kind, rs, 0, 0);
      return;
    }
    WriteList(frame, command.value, kind, rs);
    size := HEADER_SIZE + ListLength(count);
  }

  lemma {:induction false} RecordErrorsAreNegative(kind: nat, records: seq<Record>, i: nat, seen: nat)
    requires i <= |records|
    ensures -4095 <= CheckRecords(kind, records, i, seen) <= 0
    decreases |records| - i
  {
    if i < |records| {
      var slot := Slot(kind, records[i].index);
      if 0 <= slot { RecordErrorsAreNegative(kind, records, i + 1, SetBit(seen, slot)); }
    }
  }

  /** Every error of the list encoder can be reported in a status reply, and every list it accepts fits. */
  lemma ListErrorsAreStatuses(command: Option<Command>, kind: nat, records: Option<seq<Record>>, count: nat,
                              hasFrame: bool, capacity: nat)
    requires records.Some? ==> count <= |records.value|
    ensures -4095 <= ListResult(command, kind, records, count, hasFrame, capacity)
    ensures ListResult(command, kind, records, count, hasFrame, capacity) >= 0 ==>
              ListResult(command, kind, records, count, hasFrame, capacity) <= capacity
  {
    RecordErrorsAreNegative(kind, Named(records, count), 0, 0);
  }

  /** The encoding part, reached only after everything was validated. */
  method WriteList(frame: array<Byte>, c: Command, kind: nat, rs: seq<Record>)
    requires forall i :: 0 <= i < |rs| ==> RecordShape(rs[i])
    requires HEADER_SIZE + ListLength(|rs|) <= frame.Length
    modifies frame
    ensures frame[..] == Patch(old(frame[..]), 0, EncodeList(c, kind, rs))
  {
    ghost var was := frame[..];
    var h := ReplyHeader(c, kind, ListLength(|rs|), 0);
    WriteHeader(frame, h);
    WritePayload(frame, rs);
    PatchPatch(was, 0, EncodeHeader(h), EncodePayload(rs));
  }

  method WritePayload(frame: array<Byte>, rs: seq<Record>)
    requires forall i :: 0 <= i < |rs| ==> RecordShape(rs[i])
    requires HEADER_SIZE + ListLength(|rs|) <= frame.Length
    modifies frame
    ensures frame[..] == Patch(old(frame[..]), HEADER_SIZE, EncodePayload(rs))
  {
    ghost var was := frame[..];
    WriteLE(frame, 32, |rs|, 4);
    WriteLE(frame, 36, 0, 4);
    PatchPatch(was, 32, LE(|rs|, 4), LE(0, 4));
    WriteRecords(frame, rs);
    PatchPatch(was, 32, LE(|rs|, 4) + LE(0, 4), EncodeRecords(rs));
  }

  /** Writing one more record after the first `i` is having written `i + 1`. */
  lemma RecordsNext(was: seq<Byte>, rs: seq<Record>, i: nat)
    requires i < |rs| && 40 + |rs| * RECORD_SIZE <= |was| && forall k :: 0 <= k < |rs| ==> RecordShape(rs[k])
    ensures Patch(Patch(was, 40, EncodeRecords(rs[..i])), 40 + i * RECORD_SIZE, EncodeRecord(rs[i]))
         == Patch(was, 40, EncodeRecords(rs[..i + 1]))
  {
    assert rs[..i + 1][..i] == rs[..i];
    assert EncodeRecords(rs[..i + 1]) == EncodeRecords(rs[..i]) + EncodeRecord(rs[i]);
    PatchPatch(was, 40, EncodeRecords(rs[..i]), EncodeRecord(rs[i]));
  }

  /** One turn of the encoding loop. */
  method AppendRecord(frame: array<Byte>, ghost was: seq<Byte>, rs: seq<Record>, i: nat)
    requires i < |rs| && forall k :: 0 <= k < |rs| ==> RecordShape(rs[k])
    requires 40 + |rs| * RECORD_SIZE <= frame.Length == |was|
    requires frame[..] == Patch(was, 40, EncodeRecords(rs[..i]))
    modifies frame
    ensures frame[..] == Patch(was, 40, EncodeRecords(rs[..i + 1]))
  {
    WriteRecord(frame, 40 + i * RECORD_SIZE, rs[i]);
    RecordsNext(was, rs, i);
  }

  method WriteRecords(frame: array<Byte>, rs: seq<Record>)
    requires forall i :: 0 <= i < |rs| ==> RecordShape(rs[i])
    requires 40 + |rs| * RECORD_SIZE <= frame.Length
    modifies frame
    ensures frame[..] == Patch(old(frame[..]), 40, EncodeRecords(rs))
  {
    ghost var was := frame[..];
    var i := 0;
    assert frame[..] == Patch(was, 40, EncodeRecords(rs[..0]));
    while i < |rs|
      invariant 0 <= i <= |rs|
      invariant frame[..] == Patch(was, 40, EncodeRecords(rs[..i]))
    {
      AppendRecord(frame, was, rs, i);
      i := i + 1;
    }
    assert rs[..i] == rs;
  }

  // ---------------------------------------------------------------- decoding

  class CommandBuffer {
    var session: nat
    var transaction: nat
    var text: seq<Byte>

    constructor ()
    {
      session, transaction, text := 0, 0, [];
    }

    ghost function View(): Command
      reads this
    {
      Command(session, transaction, text)
    }
  }

  /** wmt_command_decode. */
  method DecodeFrame(frame: array?<Byte>, size: nat, session: nat, output: CommandBuffer?) returns (rc: int)
    requires frame != null ==> size <= frame.Length
    modifies output
    ensures frame == null || output == null ==> rc == -EINVAL
    ensures frame != null && output != null ==>
              match DecodeCommand(frame[..size], session)
              case Decoded(c) => rc == 0 && output.View() == c
              case Refused(errno) => rc == errno
    ensures rc != 0 && output != null ==> output.View() == old(output.View())
    ensures rc == 0 ==> frame != null && output != null
  {
    if frame == null || session == 0 || output == null { return -EINVAL; }
    if size < HEADER_SIZE { return -EMSGSIZE; }
    var h := ParseHeader(frame[..size]);
    if h.magic != MAGIC || h.version != VERSION { return -EPROTONOSUPPORT; }
    if h.kind != KIND_COMMAND || h.result != 0 { return -EPROTO; }
    if h.session != session { return -ESTALE; }
    if h.transaction == 0 { return -EPROTO; }
    if h.length == 0 || h.length > COMMAND_MAX || size != HEADER_SIZE + h.length { return -EMSGSIZE; }
    var nul := ContainsNul(frame, HEADER_SIZE, size);
    if nul { return -EPROTO; }
    output.session, output.transaction, output.text := h.session, h.transaction, frame[..size][HEADER_SIZE..];
    return 0;
  }

  /** memchr for NUL. */
  method ContainsNul(frame: array<Byte>, from: nat, to: nat) returns (found: bool)
    requires from <= to <= frame.Length
    ensures found <==> 0 in frame[..to][from..]
  {
    var i := from;
    ghost var s := frame[..to][from..];
    while i < to
      invariant from <= i <= to
      invariant forall k :: 0 <= k < i - from ==> s[k] != 0
    {
      assert s[i - from] == frame[i];
      if frame[i] == 0 { return true; }
      i := i + 1;
    }
    return false;
  }
}
