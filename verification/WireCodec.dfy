/**
 The WMT launcher's wire format: a 32-byte little-endian header, command frames in, status and list frames out.
 Errors are negative errno values, as in the code.
 */
module WireCodec {
  import opened Common
  import opened Bytes
  import opened Errno

  const MAGIC: nat := 0x32544d57
  const VERSION: nat := 2
  const COMMAND_MAX: nat := 255
  const PATCH_MAX: nat := 10
  const ROM_MAX: nat := 5
  const HEADER_SIZE: nat := 32
  const RECORD_SIZE: nat := 264
  const WRITE_MAX: nat := 2680

  const KIND_COMMAND: nat := 1
  const KIND_STATUS: nat := 2
  const KIND_PATCH_LIST: nat := 3
  const KIND_ROM_LIST: nat := 4

  const U16: nat := 0x1_0000
  const U32: nat := 0x1_0000_0000
  const U64: nat := 0x1_0000_0000_0000_0000

  const DOT: Byte := 46

  // ---------------------------------------------------------------- header

  datatype Header = Header(magic: nat, version: nat, kind: nat, session: nat, transaction: nat, length: nat,
                           result: nat)

  predicate HeaderFits(h: Header)
  {
    && h.magic < U32 && h.version < U16 && h.kind < U16 && h.session < U64 && h.transaction < U64
    && h.length < U32 && h.result < U32
  }

  /** The three groups of header fields. */
  function EncodeKind(h: Header): (r: seq<Byte>)
    ensures |r| == 8
  {
    LE(h.magic, 4) + LE(h.version, 2) + LE(h.kind, 2)
  }

  function EncodeIdentity(h: Header): (r: seq<Byte>)
    ensures |r| == 16
  {
    LE(h.session, 8) + LE(h.transaction, 8)
  }

  function EncodeOutcome(h: Header): (r: seq<Byte>)
    ensures |r| == 8
  {
    LE(h.length, 4) + LE(h.result, 4)
  }

  function EncodeHeader(h: Header): (r: seq<Byte>)
    ensures |r| == HEADER_SIZE
  {
    EncodeKind(h) + EncodeIdentity(h) + EncodeOutcome(h)
  }

  function ParseHeader(f: seq<Byte>): Header
    requires |f| >= HEADER_SIZE
  {
    Header(FromLE(f[0..4]), FromLE(f[4..6]), FromLE(f[6..8]), FromLE(f[8..16]), FromLE(f[16..24]),
           FromLE(f[24..28]), FromLE(f[28..32]))
  }

  lemma Halves(a: seq<Byte>, b: seq<Byte>)
    ensures (a + b)[..|a|] == a && (a + b)[|a|..] == b
  {
  }

  lemma KindFields(h: Header, g: seq<Byte>)
    requires g == EncodeKind(h)
    ensures g[0..4] == LE(h.magic, 4) && g[4..6] == LE(h.version, 2) && g[6..8] == LE(h.kind, 2)
  {
    Halves(LE(h.magic, 4) + LE(h.version, 2), LE(h.kind, 2));
    Halves(LE(h.magic, 4), LE(h.version, 2));
    SliceOfSlice(g, 0, 6, 4, 6);
    SliceOfSlice(g, 0, 6, 0, 4);
  }

  lemma IdentityFields(h: Header, g: seq<Byte>)
    requires g == EncodeIdentity(h)
    ensures g[0..8] == LE(h.session, 8) && g[8..16] == LE(h.transaction, 8)
  {
    Halves(LE(h.session, 8), LE(h.transaction, 8));
  }

  lemma OutcomeFields(h: Header, g: seq<Byte>)
    requires g == EncodeOutcome(h)
    ensures g[0..4] == LE(h.length, 4) && g[4..8] == LE(h.result, 4)
  {
    Halves(LE(h.length, 4), LE(h.result, 4));
  }

  lemma HeaderGroups(h: Header, f: seq<Byte>)
    requires |f| >= HEADER_SIZE && f[..HEADER_SIZE] == EncodeHeader(h)
    ensures f[0..8] == EncodeKind(h) && f[8..24] == EncodeIdentity(h) && f[24..32] == EncodeOutcome(h)
  {
    Halves(EncodeKind(h) + EncodeIdentity(h), EncodeOutcome(h));
    Halves(EncodeKind(h), EncodeIdentity(h));
    SliceOfSlice(f, 0, 32, 0, 24);
    SliceOfSlice(f, 0, 32, 24, 32);
    SliceOfSlice(f, 0, 24, 0, 8);
    SliceOfSlice(f, 0, 24, 8, 24);
  }

  /** A header whose fields fit their widths is recovered whatever follows it. */
  lemma HeaderRoundTrip(h: Header, f: seq<Byte>)
    requires HeaderFits(h) && |f| >= HEADER_SIZE && f[..HEADER_SIZE] == EncodeHeader(h)
    ensures ParseHeader(f) == h
  {
    HeaderGroups(h, f);
    KindFields(h, f[0..8]);
    IdentityFields(h, f[8..24]);
    OutcomeFields(h, f[24..32]);
    SliceOfSlice(f, 0, 8, 0, 4); SliceOfSlice(f, 0, 8, 4, 6); SliceOfSlice(f, 0, 8, 6, 8);
    SliceOfSlice(f, 8, 24, 0, 8); SliceOfSlice(f, 8, 24, 8, 16);
    SliceOfSlice(f, 24, 32, 0, 4); SliceOfSlice(f, 24, 32, 4, 8);
    FieldWidths();
    ReadsBack(h.magic, 4); ReadsBack(h.version, 2); ReadsBack(h.kind, 2);
    ReadsBack(h.session, 8); ReadsBack(h.transaction, 8); ReadsBack(h.length, 4); ReadsBack(h.result, 4);
  }

  /** Every 32 bytes are the encoding of the header they parse to. */
  lemma HeaderReencodes(f: seq<Byte>)
    requires |f| >= HEADER_SIZE
    ensures HeaderFits(ParseHeader(f)) && EncodeHeader(ParseHeader(f)) == f[..HEADER_SIZE]
  {
    FieldWidths();
    WritesBack(f[0..4]); WritesBack(f[4..6]); WritesBack(f[6..8]);
    WritesBack(f[8..16]); WritesBack(f[16..24]); WritesBack(f[24..28]); WritesBack(f[28..32]);
    HeaderPieces(f);
  }

  lemma HeaderPieces(f: seq<Byte>)
    requires |f| >= HEADER_SIZE
    ensures f[..HEADER_SIZE] == (f[0..4] + f[4..6] + f[6..8]) + (f[8..16] + f[16..24]) + (f[24..28] + f[28..32])
  {
    assert f[..HEADER_SIZE] == f[0..8] + f[8..24] + f[24..32];
    assert f[0..8] == f[0..4] + f[4..6] + f[6..8];
    assert f[8..24] == f[8..16] + f[16..24];
    assert f[24..32] == f[24..28] + f[28..32];
  }

  // ---------------------------------------------------------------- commands

  /** A decoded command; the text buffer is the text followed by NULs. */
  datatype Command = Command(session: nat, transaction: nat, text: seq<Byte>)

  predicate ValidCommand(c: Command)
  {
    && 0 < c.session < U64 && 0 < c.transaction < U64
    && 0 < |c.text| <= COMMAND_MAX && 0 !in c.text
  }

  datatype Decoded = Decoded(command: Command) | Refused(errno: int)

  /** wmt_command_decode, for non-NULL pointers. */
  function DecodeCommand(f: seq<Byte>, session: nat): Decoded
  {
    if session == 0 then Refused(-EINVAL)
    else if |f| < HEADER_SIZE then Refused(-EMSGSIZE)
    else
      var h := ParseHeader(f);
      if h.magic != MAGIC || h.version != VERSION then Refused(-EPROTONOSUPPORT)
      else if h.kind != KIND_COMMAND || h.result != 0 then Refused(-EPROTO)
      else if h.session != session then Refused(-ESTALE)
      else if h.transaction == 0 then Refused(-EPROTO)
      else if h.length == 0 || h.length > COMMAND_MAX || |f| != HEADER_SIZE + h.length then Refused(-EMSGSIZE)
      else if 0 in f[HEADER_SIZE..] then Refused(-EPROTO)
      else Decoded(Command(h.session, h.transaction, f[HEADER_SIZE..]))
  }

  /** The frame the kernel sends for a command. */
  function EncodeCommand(c: Command): seq<Byte>
  {
    EncodeHeader(Header(MAGIC, VERSION, KIND_COMMAND, c.session, c.transaction, |c.text|, 0)) + c.text
  }

  /** Decoding accepts exactly the well-formed encodings of the bound session, and inverts them. */
  lemma DecodeAcceptsExactlyEncodings(f: seq<Byte>, session: nat, c: Command)
    ensures DecodeCommand(f, session) == Decoded(c) <==>
            ValidCommand(c) && c.session == session && f == EncodeCommand(c)
  {
    if ValidCommand(c) && c.session == session && f == EncodeCommand(c) {
      var h := Header(MAGIC, VERSION, KIND_COMMAND, c.session, c.transaction, |c.text|, 0);
      Halves(EncodeHeader(h), c.text);
      HeaderRoundTrip(h, f);
    }
    if DecodeCommand(f, session) == Decoded(c) {
      DecodedReencodes(f, session);
    }
  }

  lemma DecodedReencodes(f: seq<Byte>, session: nat)
    requires DecodeCommand(f, session).Decoded?
    ensures var c := DecodeCommand(f, session).command; ValidCommand(c) && c.session == session && f == EncodeCommand(c)
  {
    HeaderReencodes(f);
    Reassembled(f, ParseHeader(f), Command(ParseHeader(f).session, ParseHeader(f).transaction, f[HEADER_SIZE..]));
  }

  lemma Reassembled(f: seq<Byte>, h: Header, c: Command)
    requires |f| >= HEADER_SIZE && EncodeHeader(h) == f[..HEADER_SIZE]
    requires h == Header(MAGIC, VERSION, KIND_COMMAND, c.session, c.transaction, |c.text|, 0)
             && c.text == f[HEADER_SIZE..]
    ensures f == EncodeCommand(c)
  {
    assert f == f[..HEADER_SIZE] + f[HEADER_SIZE..];
  }

  // ---------------------------------------------------------------- records and lists

  datatype Record = Record(index: nat, address: seq<Byte>, name: seq<Byte>)

  predicate RecordShape(r: Record) { r.index < U32 && |r.address| == 4 && |r.name| == NAME_SIZE }

  /** A terminated, non-empty basename other than "." and "..". */
  predicate GoodName(name: seq<Byte>)
  {
    var text := CStr(name);
    text != [] && |text| < |name| && SLASH !in text && text != [DOT] && text != [DOT, DOT]
  }

  /** Index position in the `seen` mask. */
  function Slot(kind: nat, index: nat): int { if kind == KIND_PATCH_LIST then index - 1 else index }

  function SlotLimit(kind: nat, count: nat): nat { if kind == KIND_PATCH_LIST then count else ROM_MAX }

  /** The validation loop from record `i` on, with the mask of the slots already seen; 0 means valid. */
  function CheckRecords(kind: nat, records: seq<Record>, i: nat, seen: nat): int
    requires i <= |records|
    decreases |records| - i
  {
    if i == |records| then 0
    else
      var slot := Slot(kind, records[i].index);
      if slot < 0 || slot >= SlotLimit(kind, |records|) then -EINVAL
      else if Bit(seen, slot) then -EEXIST
      else if !GoodName(records[i].name) then -EINVAL
      else CheckRecords(kind, records, i + 1, SetBit(seen, slot))
  }

  /** What a valid list is, without the loop. */
  ghost predicate ValidRecords(kind: nat, records: seq<Record>)
  {
    && (forall i :: 0 <= i < |records| ==> 0 <= Slot(kind, records[i].index) < SlotLimit(kind, |records|))
    && (forall i, j :: 0 <= i < j < |records| ==> records[i].index != records[j].index)
    && (forall i :: 0 <= i < |records| ==> GoodName(records[i].name))
  }

  /** `flags` marks exactly the slots of the first `i` records. */
  ghost predicate Marks(kind: nat, records: seq<Record>, i: nat, flags: seq<bool>)
    requires i <= |records|
  {
    forall s :: 0 <= s < |flags| ==> (flags[s] <==> exists j :: 0 <= j < i && Slot(kind, records[j].index) == s)
  }

  lemma {:induction false} CheckRecordsMeansValid(kind: nat, records: seq<Record>, i: nat, flags: seq<bool>)
    requires i <= |records| && |flags| == SlotLimit(kind, |records|) && Marks(kind, records, i, flags)
    requires forall k :: 0 <= k < i ==> 0 <= Slot(kind, records[k].index) < |flags| && GoodName(records[k].name)
    requires forall j, k :: 0 <= j < k < i ==> records[j].index != records[k].index
    ensures CheckRecords(kind, records, i, MaskOf(flags)) == 0 <==> ValidRecords(kind, records)
    decreases |records| - i
  {
    if i < |records| {
      var slot := Slot(kind, records[i].index);
      if 0 <= slot < |flags| {
        BitOfMask(flags, slot);
        if !flags[slot] && GoodName(records[i].name) {
          SetBitOfMask(flags, slot);
          var flags' := flags[slot := true];
          forall s | 0 <= s < |flags'|
            ensures flags'[s] <==> exists j :: 0 <= j < i + 1 && Slot(kind, records[j].index) == s
          {
            if s == slot { assert Slot(kind, records[i].index) == s; }
          }
          CheckRecordsMeansValid(kind, records, i + 1, flags');
        }
      }
    }
  }

  /** The bitmask loop accepts exactly the valid lists. */
  lemma ChecksExactlyValidity(kind: nat, records: seq<Record>)
    ensures CheckRecords(kind, records, 0, 0) == 0 <==> ValidRecords(kind, records)
  {
    var n := SlotLimit(kind, |records|);
    EmptyMask(n);
    CheckRecordsMeansValid(kind, records, 0, seq(n, _ => false));
  }

  function Indices(records: seq<Record>): set<nat>
  {
    set i | 0 <= i < |records| :: records[i].index
  }

  /** 1 to n. */
  function Range(n: nat): (r: set<nat>)
    ensures |r| == n && forall x: nat :: x in r <==> 1 <= x <= n
  {
    if n == 0 then {} else Range(n - 1) + {n}
  }

  /** Pigeonhole: the distinct indices of a valid patch list are all of 1 to its length. */
  lemma PatchIndicesArePermutation(records: seq<Record>)
    requires ValidRecords(KIND_PATCH_LIST, records)
    ensures Indices(records) == Range(|records|)
  {
    var n := |records|;
    IndexCount(records, n, Indices(records));
    forall x | x in Indices(records) ensures x in Range(n) {
      var i :| 0 <= i < n && records[i].index == x;
      assert 0 <= Slot(KIND_PATCH_LIST, records[i].index) < n;
    }
    SubsetOfSameSize(Indices(records), Range(n));
  }

  lemma {:induction false} IndexCount(records: seq<Record>, n: nat, used: set<nat>)
    requires n <= |records| && used == set i | 0 <= i < n :: records[i].index
    requires forall i, j :: 0 <= i < j < n ==> records[i].index != records[j].index
    ensures |used| == n
    decreases n
  {
    if n > 0 {
      var rest := set i | 0 <= i < n - 1 :: records[i].index;
      IndexCount(records, n - 1, rest);
      assert used == rest + {records[n - 1].index};
    }
  }

  lemma SubsetOfSameSize(a: set<nat>, b: set<nat>)
    requires a <= b && |a| == |b|
    ensures a == b
  {
    assert b == a + (b - a);
    assert |b - a| == 0;
  }

  /** A record on the wire: the name is cut at its first NUL and padded with NULs. */
  function EncodeRecord(r: Record): (e: seq<Byte>)
    requires RecordShape(r)
    ensures |e| == RECORD_SIZE
  {
    LE(r.index, 4) + r.address + CStr(r.name) + Zeros(NAME_SIZE - |CStr(r.name)|)
  }

  function EncodeRecords(records: seq<Record>): (e: seq<Byte>)
    requires forall i :: 0 <= i < |records| ==> RecordShape(records[i])
    ensures |e| == |records| * RECORD_SIZE
  {
    if records == [] then [] else EncodeRecords(records[..|records| - 1]) + EncodeRecord(records[|records| - 1])
  }

  function ListLength(count: nat): nat { 8 + count * RECORD_SIZE }

  function ReplyHeader(c: Command, kind: nat, length: nat, result: int): Header
    requires U32 + result > 0
  {
    Header(MAGIC, VERSION, kind, c.session, c.transaction, length, if result < 0 then U32 + result else result)
  }

  function EncodePayload(records: seq<Record>): (e: seq<Byte>)
    requires forall i :: 0 <= i < |records| ==> RecordShape(records[i])
    ensures |e| == ListLength(|records|)
  {
    LE(|records|, 4) + LE(0, 4) + EncodeRecords(records)
  }

  function EncodeList(c: Command, kind: nat, records: seq<Record>): (e: seq<Byte>)
    requires forall i :: 0 <= i < |records| ==> RecordShape(records[i])
    ensures |e| == HEADER_SIZE + ListLength(|records|)
  {
    EncodeHeader(ReplyHeader(c, kind, ListLength(|records|), 0)) + EncodePayload(records)
  }

  function EncodeStatus(c: Command, result: int): (e: seq<Byte>)
    requires -4095 <= result <= 0
    ensures |e| == HEADER_SIZE
  {
    EncodeHeader(ReplyHeader(c, KIND_STATUS, 0, result))
  }

  // ---------------------------------------------------------------- an independent decoder for replies

  datatype Reply = Reply(kind: nat, session: nat, transaction: nat, result: int, records: seq<Record>)

  function DecodeRecord(b: seq<Byte>): Record
    requires |b| == RECORD_SIZE
  {
    Record(FromLE(b[..4]), b[4..8], b[8..])
  }

  function DecodeRecords(b: seq<Byte>, n: nat): seq<Record>
    requires |b| == n * RECORD_SIZE
    decreases n
  {
    if n == 0 then []
    else
      assert |b[..(n - 1) * RECORD_SIZE]| == (n - 1) * RECORD_SIZE;
      DecodeRecords(b[..(n - 1) * RECORD_SIZE], n - 1) + [DecodeRecord(b[(n - 1) * RECORD_SIZE..])]
  }

  /** Reads a reply without consulting the encoder. */
  function DecodeReply(f: seq<Byte>): Option<Reply>
  {
    if |f| < HEADER_SIZE then None else DecodeBody(ParseHeader(f), f[HEADER_SIZE..])
  }

  function DecodeBody(h: Header, payload: seq<Byte>): Option<Reply>
  {
    var result := if h.result >= 0x8000_0000 then h.result - U32 else h.result;
    if h.magic != MAGIC || h.version != VERSION || |payload| != h.length then None
    else if h.kind == KIND_STATUS then
      if h.length == 0 then Some(Reply(h.kind, h.session, h.transaction, result, [])) else None
    else if h.length < 8 then None
    else
      var count := FromLE(payload[..4]);
      if FromLE(payload[4..8]) != 0 || h.length != ListLength(count) then None
      else Some(Reply(h.kind, h.session, h.transaction, result, DecodeRecords(payload[8..], count)))
  }

  /** The record a reader gets: same index and address, the name cut at its first NUL and zero padded. */
  function Canonical(r: Record): Record
    requires RecordShape(r)
  {
    r.(name := CStr(r.name) + Zeros(NAME_SIZE - |CStr(r.name)|))
  }

  function Canonicals(records: seq<Record>): seq<Record>
    requires forall i :: 0 <= i < |records| ==> RecordShape(records[i])
  {
    seq(|records|, i requires 0 <= i < |records| => Canonical(records[i]))
  }

  lemma RecordRoundTrip(r: Record)
    requires RecordShape(r)
    ensures DecodeRecord(EncodeRecord(r)) == Canonical(r)
  {
    FieldWidths();
    ReadsBack(r.index, 4);
    var name := CStr(r.name) + Zeros(NAME_SIZE - |CStr(r.name)|);
    assert EncodeRecord(r) == (LE(r.index, 4) + r.address) + name;
    RecordParts(LE(r.index, 4), r.address, name);
  }

  lemma RecordParts(index: seq<Byte>, address: seq<Byte>, name: seq<Byte>)
    requires |index| == |address| == 4
    ensures var e := index + address + name; e[..4] == index && e[4..8] == address && e[8..] == name
  {
    var e := index + address + name;
    Halves(index + address, name);
    Halves(index, address);
    SliceOfSlice(e, 0, 8, 0, 4);
    SliceOfSlice(e, 0, 8, 4, 8);
  }

  lemma {:induction false} RecordsRoundTrip(records: seq<Record>)
    requires forall i :: 0 <= i < |records| ==> RecordShape(records[i])
    ensures DecodeRecords(EncodeRecords(records), |records|) == Canonicals(records)
    decreases |records|
  {
    if records != [] {
      var n := |records| - 1;
      RecordsRoundTrip(records[..n]);
      RecordRoundTrip(records[n]);
      DecodeLast(EncodeRecords(records[..n]), EncodeRecord(records[n]), n);
      CanonicalsLast(records);
    }
  }

  lemma DecodeLast(front: seq<Byte>, last: seq<Byte>, n: nat)
    requires |front| == n * RECORD_SIZE && |last| == RECORD_SIZE
    ensures |front + last| == (n + 1) * RECORD_SIZE
    ensures DecodeRecords(front + last, n + 1) == DecodeRecords(front, n) + [DecodeRecord(last)]
  {
    Halves(front, last);
  }

  lemma CanonicalsLast(records: seq<Record>)
    requires records != [] && forall i :: 0 <= i < |records| ==> RecordShape(records[i])
    ensures Canonicals(records) == Canonicals(records[..|records| - 1]) + [Canonical(records[|records| - 1])]
  {
  }

  /** Kind, identity, count and every record survive the wire. */
  lemma ListRoundTrip(c: Command, kind: nat, records: seq<Record>)
    requires c.session < U64 && c.transaction < U64 && kind in {KIND_PATCH_LIST, KIND_ROM_LIST}
             && |records| <= PATCH_MAX
    requires forall i :: 0 <= i < |records| ==> RecordShape(records[i])
    ensures DecodeReply(EncodeList(c, kind, records)) ==
            Some(Reply(kind, c.session, c.transaction, 0, Canonicals(records)))
    ensures |EncodeList(c, kind, records)| <= WRITE_MAX
  {
    var h := ReplyHeader(c, kind, ListLength(|records|), 0);
    Halves(EncodeHeader(h), EncodePayload(records));
    HeaderRoundTrip(h, EncodeList(c, kind, records));
    BodyRoundTrip(h, records);
  }

  lemma BodyRoundTrip(h: Header, records: seq<Record>)
    requires h.magic == MAGIC && h.version == VERSION && h.kind != KIND_STATUS && h.result == 0
    requires h.length == ListLength(|records|) && |records| <= PATCH_MAX
    requires forall i :: 0 <= i < |records| ==> RecordShape(records[i])
    ensures DecodeBody(h, EncodePayload(records)) ==
            Some(Reply(h.kind, h.session, h.transaction, 0, Canonicals(records)))
  {
    FieldWidths();
    ReadsBack(|records|, 4);
    ReadsBack(0, 4);
    RecordParts(LE(|records|, 4), LE(0, 4), EncodeRecords(records));
    RecordsRoundTrip(records);
  }

  lemma StatusRoundTrip(c: Command, result: int)
    requires c.session < U64 && c.transaction < U64 && -4095 <= result <= 0
    ensures DecodeReply(EncodeStatus(c, result)) == Some(Reply(KIND_STATUS, c.session, c.transaction, result, []))
  {
    var h := ReplyHeader(c, KIND_STATUS, 0, result);
    Halves(EncodeHeader(h), []);
    assert EncodeStatus(c, result) == EncodeHeader(h) + [];
    HeaderRoundTrip(h, EncodeStatus(c, result));
    StatusBody(h, result);
  }

  lemma StatusBody(h: Header, result: int)
    requires h.magic == MAGIC && h.version == VERSION && h.kind == KIND_STATUS && h.length == 0 && -4095 <= result <= 0
    requires h.result == if result < 0 then U32 + result else result
    ensures DecodeBody(h, []) == Some(Reply(KIND_STATUS, h.session, h.transaction, result, []))
  {
  }
}
