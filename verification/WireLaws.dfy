/** The wire format byte by byte, and which error answers which fault. */
module WireLaws {
  import opened Common
  import opened Bytes
  import opened WireCodec
  import WireCode

  /** Fields are little-endian: the least significant byte comes first. */
  lemma LeastSignificantFirst(value: nat, n: nat)
    requires n > 0
    ensures LE(value, n)[0] == value % 256 && LE(value, n)[1..] == LE(value / 256, n - 1)
    ensures LE(0x32544d57, 4) == [0x57, 0x4d, 0x54, 0x32]
  {
    assert LE(0x32544d57, 4) == [0x57] + LE(0x32544d, 3);
    assert LE(0x32544d, 3) == [0x4d] + LE(0x3254, 2);
    assert LE(0x3254, 2) == [0x54] + LE(0x32, 1);
    assert LE(0x32, 1) == [0x32] + LE(0, 0);
  }

  /** The header: magic "WMT2", version, kind, session, transaction, payload length, result. */
  lemma HeaderLayout(h: Header, f: seq<Byte>)
    requires |f| >= 32 && f[..32] == EncodeHeader(h)
    ensures f[0..4] == LE(h.magic, 4) && f[4..6] == LE(h.version, 2) && f[6..8] == LE(h.kind, 2)
    ensures f[8..16] == LE(h.session, 8) && f[16..24] == LE(h.transaction, 8)
    ensures f[24..28] == LE(h.length, 4) && f[28..32] == LE(h.result, 4)
  {
    HeaderGroups(h, f);
    KindFields(h, f[0..8]);
    IdentityFields(h, f[8..24]);
    OutcomeFields(h, f[24..32]);
    SliceOfSlice(f, 0, 8, 0, 4);
    SliceOfSlice(f, 0, 8, 4, 6);
    SliceOfSlice(f, 0, 8, 6, 8);
    SliceOfSlice(f, 8, 24, 0, 8);
    SliceOfSlice(f, 8, 24, 8, 16);
    SliceOfSlice(f, 24, 32, 0, 4);
    SliceOfSlice(f, 24, 32, 4, 8);
  }

  /** A record's bytes follow those of the records before it, 264 each. */
  lemma {:induction false} RecordsSplit(records: seq<Record>, i: nat) returns (rest: seq<Byte>)
    requires i < |records| && forall k :: 0 <= k < |records| ==> RecordShape(records[k])
    ensures EncodeRecords(records) == EncodeRecords(records[..i]) + EncodeRecord(records[i]) + rest
    decreases |records|
  {
    var n := |records| - 1;
    LastRecord(records, n);
    if i == n {
      rest := [];
      assert EncodeRecords(records) == EncodeRecords(records[..i]) + EncodeRecord(records[i]) + rest;
    } else {
      var before := RecordsSplit(records[..n], i);
      assert records[..n][..i] == records[..i] && records[..n][i] == records[i];
      rest := before + EncodeRecord(records[n]);
      Regroup(EncodeRecords(records), EncodeRecords(records[..n]), EncodeRecords(records[..i]),
              EncodeRecord(records[i]), before, EncodeRecord(records[n]));
    }
  }

  lemma LastRecord(records: seq<Record>, n: nat)
    requires |records| == n + 1 && forall k :: 0 <= k < |records| ==> RecordShape(records[k])
    ensures EncodeRecords(records) == EncodeRecords(records[..n]) + EncodeRecord(records[n])
  {
  }

  lemma Regroup(whole: seq<Byte>, front: seq<Byte>, a: seq<Byte>, b: seq<Byte>, c: seq<Byte>, last: seq<Byte>)
    requires whole == front + last && front == a + b + c
    ensures whole == a + b + (c + last)
  {
  }

  lemma Middle(a: seq<Byte>, b: seq<Byte>, c: seq<Byte>, n: nat)
    requires |a| == n
    ensures (a + b + c)[n..n + |b|] == b
  {
  }

  lemma RecordPosition(records: seq<Record>, i: nat)
    requires i < |records| && forall k :: 0 <= k < |records| ==> RecordShape(records[k])
    ensures |EncodeRecords(records)| == 264 * |records|
    ensures EncodeRecords(records)[264 * i..264 * i + 264] == EncodeRecord(records[i])
  {
    var rest := RecordsSplit(records, i);
    Middle(EncodeRecords(records[..i]), EncodeRecord(records[i]), rest, 264 * i);
  }

  /** A list frame: 40 bytes, then 264 for each record with its index, its address, and its name cut at the first NUL
      and padded with zeros. */
  lemma ListLayout(c: Command, kind: nat, records: seq<Record>, i: nat)
    requires i < |records| && forall k :: 0 <= k < |records| ==> RecordShape(records[k])
    ensures var e := EncodeList(c, kind, records);
            && |e| == 40 + 264 * |records|
            && e[32..36] == LE(|records|, 4) && e[36..40] == LE(0, 4)
            && e[40 + 264 * i..304 + 264 * i] == RecordBytes(records[i])
  {
    var e := EncodeList(c, kind, records);
    Halves(EncodeHeader(ReplyHeader(c, kind, ListLength(|records|), 0)), EncodePayload(records));
    RecordParts(LE(|records|, 4), LE(0, 4), EncodeRecords(records));
    PayloadPosition(e, EncodePayload(records), EncodeRecords(records), i);
    RecordPosition(records, i);
  }

  function RecordBytes(r: Record): seq<Byte>
    requires RecordShape(r)
  {
    LE(r.index, 4) + r.address + CStr(r.name) + Zeros(256 - |CStr(r.name)|)
  }

  lemma PayloadPosition(e: seq<Byte>, payload: seq<Byte>, records: seq<Byte>, i: nat)
    requires |e| >= 40 && e[32..] == payload && payload[8..] == records && 264 * i + 264 <= |records|
    ensures e[32..36] == payload[..4] && e[36..40] == payload[4..8]
    ensures e[40 + 264 * i..304 + 264 * i] == records[264 * i..264 * i + 264]
  {
    SliceOfSlice(e, 32, |e|, 0, 4);
    SliceOfSlice(e, 32, |e|, 4, 8);
    SliceOfSlice(e, 32, |e|, 8, |payload|);
    SliceOfSlice(e, 40, |e|, 264 * i, 264 * i + 264);
  }

  // ---------------------------------------------------------------- validity and errors

  /** A good name is terminated within its field, not empty, not a path, and not "." or "..". */
  lemma GoodNameMeans(name: seq<Byte>, n: nat)
    requires n < |name| && name[n] == 0 && forall i :: 0 <= i < n ==> name[i] != 0
    ensures GoodName(name) <==>
            && n > 0 && (forall i :: 0 <= i < n ==> name[i] != 47)
            && !(n == 1 && name[0] == 46) && !(n == 2 && name[0] == 46 && name[1] == 46)
  {
    CStrUnique(name, n);
    var text := name[..n];
    assert text == [46] <==> n == 1 && name[0] == 46;
    assert text == [46, 46] <==> n == 2 && name[0] == 46 && name[1] == 46;
    assert SLASH !in text <==> forall i :: 0 <= i < n ==> name[i] != 47;
  }

  lemma UnterminatedNameIsBad(name: seq<Byte>)
    requires 0 !in name
    ensures !GoodName(name)
  {
  }

  /** Index ranges: 1 to the count for patches, 0 to 4 for ROM images. */
  lemma ValidRecordsMeans(kind: nat, records: seq<Record>)
    requires kind == 3 || kind == 4
    ensures ValidRecords(kind, records) <==>
            && (forall i :: 0 <= i < |records| ==>
                  if kind == 3 then 1 <= records[i].index <= |records| else records[i].index < 5)
            && (forall i, j :: 0 <= i < j < |records| ==> records[i].index != records[j].index)
            && (forall i :: 0 <= i < |records| ==> GoodName(records[i].name))
  {
  }

  /** The records before `k` pass the loop. */
  ghost predicate PassUpTo(kind: nat, records: seq<Record>, k: nat)
    requires k <= |records|
  {
    && (forall i :: 0 <= i < k ==>
          0 <= Slot(kind, records[i].index) < SlotLimit(kind, |records|) && GoodName(records[i].name))
    && (forall i, j :: 0 <= i < j < k ==> records[i].index != records[j].index)
  }

  function ErrorOf(inRange: bool, repeated: bool): int { if inRange && repeated then -17 else -22 }

  /** A slot is marked exactly when an earlier record has the index. */
  lemma MarkedMeansRepeated(kind: nat, records: seq<Record>, k: nat, flags: seq<bool>)
    requires k < |records| && Marks(kind, records, k, flags) && 0 <= Slot(kind, records[k].index) < |flags|
    ensures flags[Slot(kind, records[k].index)] <==> exists j :: 0 <= j < k && records[j].index == records[k].index
  {
    var slot := Slot(kind, records[k].index);
    forall j | 0 <= j < k ensures Slot(kind, records[j].index) == slot <==> records[j].index == records[k].index { }
  }

  /** The first bad record decides the error: EEXIST for an index already seen, EINVAL for anything else. */
  lemma {:induction false} FirstBadRecordDecides(kind: nat, records: seq<Record>, k: nat, i: nat, flags: seq<bool>)
    requires i <= k < |records| && PassUpTo(kind, records, k) && !PassUpTo(kind, records, k + 1)
    requires |flags| == SlotLimit(kind, |records|) && Marks(kind, records, i, flags)
    ensures CheckRecords(kind, records, i, MaskOf(flags)) ==
            ErrorOf(0 <= Slot(kind, records[k].index) < SlotLimit(kind, |records|),
                    exists j :: 0 <= j < k && records[j].index == records[k].index)
    decreases k - i
  {
    var slot := Slot(kind, records[i].index);
    if 0 <= slot < |flags| {
      BitOfMask(flags, slot);
      MarkedMeansRepeated(kind, records, i, flags);
    }
    if i < k {
      SetBitOfMask(flags, slot);
      MarksNext(kind, records, i, flags);
      FirstBadRecordDecides(kind, records, k, i + 1, flags[slot := true]);
    } else {
      LastBad(kind, records, k);
    }
  }

  /** What is wrong with the record after those that pass. */
  lemma LastBad(kind: nat, records: seq<Record>, k: nat)
    requires k < |records| && PassUpTo(kind, records, k) && !PassUpTo(kind, records, k + 1)
    ensures var slot := Slot(kind, records[k].index);
            || !(0 <= slot < SlotLimit(kind, |records|)) || !GoodName(records[k].name)
            || exists j :: 0 <= j < k && records[j].index == records[k].index
  {
  }

  lemma MarksNext(kind: nat, records: seq<Record>, i: nat, flags: seq<bool>)
    requires i < |records| && Marks(kind, records, i, flags) && 0 <= Slot(kind, records[i].index) < |flags|
    ensures Marks(kind, records, i + 1, flags[Slot(kind, records[i].index) := true])
  {
    var slot := Slot(kind, records[i].index);
    var flags' := flags[slot := true];
    forall s | 0 <= s < |flags'|
      ensures flags'[s] <==> exists j :: 0 <= j < i + 1 && Slot(kind, records[j].index) == s
    {
      if s == slot { assert Slot(kind, records[i].index) == s; }
    }
  }

  lemma ListErrorExactly(kind: nat, records: seq<Record>, k: nat)
    requires k < |records| && PassUpTo(kind, records, k) && !PassUpTo(kind, records, k + 1)
    ensures CheckRecords(kind, records, 0, 0) ==
            ErrorOf(0 <= Slot(kind, records[k].index) < SlotLimit(kind, |records|),
                    exists j :: 0 <= j < k && records[j].index == records[k].index)
  {
    var n := SlotLimit(kind, |records|);
    EmptyMask(n);
    FirstBadRecordDecides(kind, records, k, 0, seq(n, _ => false));
  }

  /** A command of another session is stale; one with a NUL in its text, a wrong length, a result or without a
      transaction is refused under its own error. */
  lemma DecodeErrorExactly(c: Command, session: nat)
    requires 0 < session && c.session < U64 && c.transaction < U64 && |c.text| < U32
    ensures DecodeCommand(EncodeCommand(c), session) ==
            if c.session != session then Refused(-116)
            else if c.transaction == 0 then Refused(-71)
            else if |c.text| == 0 || |c.text| > 255 then Refused(-90)
            else if 0 in c.text then Refused(-71)
            else Decoded(c)
  {
    var h := Header(MAGIC, VERSION, KIND_COMMAND, c.session, c.transaction, |c.text|, 0);
    Halves(EncodeHeader(h), c.text);
    HeaderRoundTrip(h, EncodeCommand(c));
  }

  /** What is not a version-2 frame at all, and what is one of another kind or with a result. */
  lemma ForeignFramesAreRefused(f: seq<Byte>, session: nat)
    ensures session == 0 ==> DecodeCommand(f, session) == Refused(-22)
    ensures session != 0 && |f| < 32 ==> DecodeCommand(f, session) == Refused(-90)
    ensures session != 0 && |f| >= 32 && !(FromLE(f[0..4]) == 0x32544d57 && FromLE(f[4..6]) == 2) ==>
              DecodeCommand(f, session) == Refused(-93)
    ensures session != 0 && |f| >= 32 && FromLE(f[0..4]) == 0x32544d57 && FromLE(f[4..6]) == 2 ==>
              (!(FromLE(f[6..8]) == 1 && FromLE(f[28..32]) == 0) ==> DecodeCommand(f, session) == Refused(-71))
  {
  }

  // ---------------------------------------------------------------- the arguments of the two encoders

  /** A command whose identity can be replied to. */
  predicate Identified(c: Option<Command>) { c.Some? && c.value.session > 0 && c.value.transaction > 0 }

  /** A status reply takes 32 bytes, for an identified command, a buffer that holds them and a result from -4095 to 0;
      only the lack of room is EMSGSIZE. */
  lemma StatusArgumentsExactly(c: Option<Command>, result: int, hasFrame: bool, capacity: nat)
    ensures var size := WireCode.StatusResult(c, result, hasFrame, capacity);
            var good := Identified(c) && hasFrame && -4095 <= result && result <= 0;
            && (size == 32 <==> good && 32 <= capacity)
            && (size == -90 <==> good && capacity < 32)
            && (size == -22 <==> !good)
  {
  }

  /** The most records of each kind of list. */
  function Most(kind: nat): nat { if kind == 3 then 10 else 5 }

  /** A list of 1 to 10 patches or of up to 5 ROM images is looked at, if 40 bytes and 264 for each record fit; too many
      records are E2BIG, too little room is EMSGSIZE, anything else is EINVAL. */
  lemma ListArgumentsExactly(c: Option<Command>, kind: nat, hasRecords: bool, count: nat, hasFrame: bool, capacity: nat)
    ensures var error := WireCode.ArgumentError(c, kind, hasRecords, count, hasFrame, capacity);
            var good := && Identified(c) && hasFrame && (hasRecords || count == 0)
                        && ((kind == 3 && count > 0) || kind == 4);
            && (error == 0 <==> good && count <= Most(kind) && 40 + 264 * count <= capacity)
            && (error == -7 <==> good && count > Most(kind))
            && (error == -90 <==> good && count <= Most(kind) && 40 + 264 * count > capacity)
            && (error == -22 <==> !good)
  {
  }
}
