/**
 One command of the WMT launcher, from its decoded text to the single reply it gets: chip checks, firmware search,
 list encoding, transmission, and publication of the version properties.
 */
module CommandHandler {
  import opened Common
  import opened Bytes
  import opened Errno
  import opened WireCodec
  import WireCode
  import P = PatchSet
  import B = BtVersion
  import D = FirmwareDiscovery
  import R = RomDiscovery

  const SEARCH_PATCH: seq<Byte> := B.Ascii("srh_patch")
  const SEARCH_ROM: seq<Byte> := B.Ascii("srh_rom_patch")

  datatype Ioctl = Value(value: nat) | Failed(status: Failure)

  type Failure = x: int | -4095 <= x < 0 witness -1

  /** The last write call: interrupted writes are repeated with the same frame. */
  datatype Write = Wrote(size: nat) | WriteFailed(status: Failure)

  /** What the outside answers while one command is handled. */
  datatype World = World(chip: Ioctl, version: Ioctl, directory: D.Directory, write: Write)

  datatype Property = PatchVersion | WifiVersion | BtVersion

  datatype Search = Patches(firmware: D.Firmware) | Roms(roms: R.RomSet) | Unanswered(status: Failure)

  /** The frames handed to write, the properties published (as C strings), and the return value. */
  datatype Effects = Effects(frames: seq<seq<Byte>>, published: seq<(Property, seq<Byte>)>, rc: int)

  predicate SupportedChip(chip: nat) { chip == 0x6755 || chip == 0x0326 }

  function RunSearch(text: seq<Byte>, w: World): (s: Search)
    ensures s.Patches? ==> D.FirmwareShape(s.firmware)
    ensures s.Roms? ==> R.RomShape(s.roms)
  {
    if text != SEARCH_PATCH && text != SEARCH_ROM then Unanswered(-EOPNOTSUPP)
    else if w.chip.Failed? then Unanswered(w.chip.status)
    else if !SupportedChip(w.chip.value) then Unanswered(-ENODEV)
    else if w.version.Failed? then Unanswered(w.version.status)
    else if w.version.value > 65535 then Unanswered(-ERANGE)
    else if text == SEARCH_PATCH then
      match D.SearchFirmware(w.directory, w.version.value)
      case Found(f) => Patches(f)
      case Stopped(e) => Unanswered(e)
    else
      match R.SearchRoms(w.directory, w.version.value)
      case Found(f) => Roms(f)
      case Stopped(e) => Unanswered(e)
  }

  // ---------------------------------------------------------------- the records of a reply

  function PatchRecords(f: D.Firmware, n: nat): (r: seq<Record>)
    requires D.FirmwareShape(f) && n <= P.MAX_PATCHES
    ensures |r| == n
  {
    seq(n, i requires 0 <= i < n =>
      Record(f.patches.records[i].sequence, f.patches.records[i].address, f.patches.records[i].name))
  }

  /** The seen types below `n`, in order. */
  function RomRecords(f: R.RomSet, n: nat): (r: seq<Record>)
    requires R.RomShape(f) && n <= R.ROM_TYPES
    ensures |r| <= n
  {
    if n == 0 then []
    else if Bit(f.seen, n - 1)
    then RomRecords(f, n - 1) + [Record(n - 1, f.records[n - 1].address, f.records[n - 1].name)]
    else RomRecords(f, n - 1)
  }

  datatype Answer = List(kind: nat, records: seq<Record>) | Refusal(status: Failure)

  function AnswerOf(s: Search): Answer
    requires s.Patches? ==> D.FirmwareShape(s.firmware) && s.firmware.patches.count <= P.MAX_PATCHES
    requires s.Roms? ==> R.RomShape(s.roms)
  {
    match s
    case Patches(f) => List(KIND_PATCH_LIST, PatchRecords(f, f.patches.count))
    case Roms(f) => List(KIND_ROM_LIST, RomRecords(f, R.ROM_TYPES))
    case Unanswered(status) => Refusal(status)
  }

  /** A list answer that wmt_reply_list accepts into the 2680-byte frame. */
  ghost predicate Encodable(kind: nat, records: seq<Record>)
  {
    && (kind == KIND_PATCH_LIST || kind == KIND_ROM_LIST)
    && (kind == KIND_PATCH_LIST ==> 0 < |records| <= PATCH_MAX)
    && (kind == KIND_ROM_LIST ==> |records| <= ROM_MAX)
    && (forall i :: 0 <= i < |records| ==> RecordShape(records[i]))
    && ValidRecords(kind, records)
  }

  lemma EncodableIsAccepted(c: Command, kind: nat, records: seq<Record>)
    requires ValidCommand(c) && Encodable(kind, records)
    ensures WireCode.ListResult(Some(c), kind, Some(records), |records|, true, WRITE_MAX) ==
            HEADER_SIZE + ListLength(|records|) <= WRITE_MAX
  {
    ChecksExactlyValidity(kind, records);
    assert records[..|records|] == records;
  }

  // ---------------------------------------------------------------- a successful search is always encodable

  /** A discovered name is a terminated basename other than "." and "..". */
  lemma DiscoveredName(name: Name)
    requires P.GoodBasename(name) && 2 < |name|
    ensures GoodName(P.NameField(name)) && CStr(P.NameField(name)) == name
  {
    var rest := Zeros(NAME_SIZE - |name| - 1);
    assert P.NameField(name) == name + [0] + rest;
    CStrOfText(name, rest);
  }

  lemma FoundPatchIsGood(d: D.Directory, firmware: nat, f: D.Firmware, s: nat)
    requires D.SearchFirmware(d, firmware) == D.Found(f) && 1 <= s <= f.patches.count
    ensures D.FirmwareShape(f) && f.patches.count <= P.MAX_PATCHES
    ensures var r := f.patches.records[s - 1];
            r.sequence == s && |r.address| == 4 && |r.name| == NAME_SIZE && GoodName(r.name)
  {
    var c := D.FoundPatchesAreTheFiles(d, firmware, f, s);
    DiscoveredName(c.name);
  }

  lemma FoundPatchesAreEncodable(d: D.Directory, firmware: nat, f: D.Firmware)
    requires D.SearchFirmware(d, firmware) == D.Found(f)
    ensures D.FirmwareShape(f) && 0 < f.patches.count <= P.MAX_PATCHES
    ensures Encodable(KIND_PATCH_LIST, PatchRecords(f, f.patches.count))
  {
    assert P.Complete(f.patches) == 0;
    FoundRecordsAreEncodable(f, d, firmware);
  }

  lemma FoundRecordsAreEncodable(f: D.Firmware, d: D.Directory, firmware: nat)
    requires D.SearchFirmware(d, firmware) == D.Found(f) && D.FirmwareShape(f) && 0 < f.patches.count <= P.MAX_PATCHES
    ensures Encodable(KIND_PATCH_LIST, PatchRecords(f, f.patches.count))
  {
    var records := PatchRecords(f, f.patches.count);
    forall i | 0 <= i < |records|
      ensures records[i].index == i + 1 && RecordShape(records[i]) && GoodName(records[i].name)
    {
      FoundPatchIsGood(d, firmware, f, i + 1);
    }
  }

  lemma FoundRomIsGood(d: D.Directory, firmware: nat, f: R.RomSet, t: nat)
    requires R.SearchRoms(d, firmware) == D.Found(f) && t < R.ROM_TYPES && Bit(f.seen, t)
    ensures R.RomShape(f) && |f.records[t].address| == 4 && |f.records[t].name| == NAME_SIZE
            && GoodName(f.records[t].name)
  {
    var c := R.FoundRomsAreTheFiles(d, firmware, t);
    DiscoveredName(c.name);
  }

  predicate GoodRom(info: R.RomInfo) { |info.address| == 4 && |info.name| == NAME_SIZE && GoodName(info.name) }

  /** Shapely records with good names and distinct indices below `n`. */
  ghost predicate GoodRecords(rs: seq<Record>, n: nat)
  {
    && (forall i :: 0 <= i < |rs| ==> rs[i].index < n && RecordShape(rs[i]) && GoodName(rs[i].name))
    && (forall i, j :: 0 <= i < j < |rs| ==> rs[i].index != rs[j].index)
  }

  lemma {:induction false} RomRecordsAreGood(f: R.RomSet, n: nat)
    requires R.RomShape(f) && n <= R.ROM_TYPES
    requires forall t :: 0 <= t < R.ROM_TYPES && Bit(f.seen, t) ==> GoodRom(f.records[t])
    ensures GoodRecords(RomRecords(f, n), n)
    decreases n
  {
    if n > 0 {
      RomRecordsAreGood(f, n - 1);
      if Bit(f.seen, n - 1) { assert GoodRom(f.records[n - 1]); }
    }
  }

  lemma FoundRomsAreEncodable(d: D.Directory, firmware: nat, f: R.RomSet)
    requires R.SearchRoms(d, firmware) == D.Found(f)
    ensures R.RomShape(f) && Encodable(KIND_ROM_LIST, RomRecords(f, R.ROM_TYPES))
  {
    forall t | 0 <= t < R.ROM_TYPES && Bit(f.seen, t) ensures R.RomShape(f) && GoodRom(f.records[t]) {
      FoundRomIsGood(d, firmware, f, t);
    }
    RomRecordsAreGood(f, R.ROM_TYPES);
    assert GoodRecords(RomRecords(f, R.ROM_TYPES), ROM_MAX);
  }

  /** Whatever the search finds can be answered: a list that passes every check of the encoder, or a status. */
  lemma EverySearchIsAnswerable(text: seq<Byte>, w: World)
    ensures var s := RunSearch(text, w);
            && (s.Patches? ==> s.firmware.patches.count <= P.MAX_PATCHES)
            && (AnswerOf(s).List? ==> Encodable(AnswerOf(s).kind, AnswerOf(s).records))
  {
    match RunSearch(text, w)
    case Patches(f) => FoundPatchesAreEncodable(w.directory, w.version.value, f);
    case Roms(f) => FoundRomsAreEncodable(w.directory, w.version.value, f);
    case Unanswered(_) =>
  }

  // ---------------------------------------------------------------- handling

  function SendResult(frame: seq<Byte>, write: Write): int
  {
    match write
    case WriteFailed(status) => status
    case Wrote(size) => if size == |frame| then 0 else -EPROTO
  }

  /** The frame prepared for an answer, or the error that prevents any reply. */
  datatype Prepared = Frame(bytes: seq<Byte>, listed: bool) | NoFrame(rc: int)

  function PrepareStatus(c: Command, result: int): Prepared
  {
    if c.session == 0 || c.transaction == 0 || !(-4095 <= result <= 0) then NoFrame(-EINVAL)
    else Frame(EncodeStatus(c, result), false)
  }

  function Prepare(c: Command, answer: Answer): Prepared
    requires answer.List? ==> forall i :: 0 <= i < |answer.records| ==> RecordShape(answer.records[i])
  {
    match answer
    case Refusal(status) => PrepareStatus(c, status)
    case List(kind, records) =>
      var size := WireCode.ListResult(Some(c), kind, Some(records), |records|, true, WRITE_MAX);
      if size < 0 then PrepareStatus(c, size) else Frame(EncodeList(c, kind, records), true)
  }

  function Publications(s: Search): seq<(Property, seq<Byte>)>
    requires s.Patches? ==> D.FirmwareShape(s.firmware)
  {
    match s
    case Unanswered(_) => []
    case Patches(f) => [(PatchVersion, CStr(f.versions[0]))]
    case Roms(f) =>
      (if f.hasWifi then [(WifiVersion, CStr(f.wifiVersion))] else [])
      + (if f.hasBt then [(BtVersion, CStr(f.btVersion))] else [])
  }

  function Deliver(s: Search, prepared: Prepared, write: Write): Effects
    requires s.Patches? ==> D.FirmwareShape(s.firmware)
  {
    match prepared
    case NoFrame(rc) => Effects([], [], rc)
    case Frame(bytes, listed) =>
      var sent := SendResult(bytes, write);
      Effects([bytes], if sent == 0 && listed then Publications(s) else [], sent)
  }

  /** handle_command. */
  function Handle(c: Command, w: World): Effects
  {
    EverySearchIsAnswerable(c.text, w);
    var s := RunSearch(c.text, w);
    Deliver(s, Prepare(c, AnswerOf(s)), w.write)
  }

  // ---------------------------------------------------------------- theorems

  /** The reply a reader decodes from the frame says what the search found, under the command's own identity. */
  ghost predicate Answers(c: Command, answer: Answer, frame: seq<Byte>)
  {
    match answer
    case Refusal(status) => DecodeReply(frame) == Some(Reply(KIND_STATUS, c.session, c.transaction, status, []))
    case List(kind, records) =>
      && (forall i :: 0 <= i < |records| ==> RecordShape(records[i]))
      && DecodeReply(frame) == Some(Reply(kind, c.session, c.transaction, 0, Canonicals(records)))
  }

  lemma PreparedAnswers(c: Command, answer: Answer)
    requires ValidCommand(c) && (answer.List? ==> Encodable(answer.kind, answer.records))
    ensures var p := Prepare(c, answer);
            p.Frame? && p.listed == answer.List? && |p.bytes| <= WRITE_MAX && Answers(c, answer, p.bytes)
  {
    match answer
    case Refusal(status) => StatusRoundTrip(c, status);
    case List(kind, records) =>
      EncodableIsAccepted(c, kind, records);
      ListRoundTrip(c, kind, records);
  }

  /** Every command gets exactly one reply attempt, which fits the frame and carries its identity and its result. */
  lemma EveryCommandIsAnsweredOnce(c: Command, w: World)
    requires ValidCommand(c)
    ensures var s := RunSearch(c.text, w);
            var e := Handle(c, w);
            && (s.Patches? ==> s.firmware.patches.count <= P.MAX_PATCHES)
            && |e.frames| == 1 && |e.frames[0]| <= WRITE_MAX && Answers(c, AnswerOf(s), e.frames[0])
  {
    EverySearchIsAnswerable(c.text, w);
    PreparedAnswers(c, AnswerOf(RunSearch(c.text, w)));
  }

  /** Properties change exactly when a search succeeded and its reply was accepted, and then show what was found. */
  lemma PublishedOnlyWhenAccepted(c: Command, w: World)
    requires ValidCommand(c)
    ensures var e := Handle(c, w);
            && |e.frames| == 1 && (e.rc == 0 <==> w.write == Wrote(|e.frames[0]|))
            && e.published == if e.rc == 0 then Publications(RunSearch(c.text, w)) else []
  {
    EverySearchIsAnswerable(c.text, w);
    PreparedAnswers(c, AnswerOf(RunSearch(c.text, w)));
  }

  lemma {:induction false} SameRomRecords(f: R.RomSet, g: R.RomSet, n: nat)
    requires R.RomShape(f) && R.RomShape(g) && R.SameRoms(f, g) && n <= R.ROM_TYPES
    ensures RomRecords(f, n) == RomRecords(g, n)
    decreases n
  {
    if n > 0 { SameRomRecords(f, g, n - 1); }
  }

  lemma SearchIgnoresOrder(text: seq<Byte>, w: World, w': World)
    requires w'.(directory := w.directory) == w && D.Reordered(w.directory, w'.directory)
    requires !RunSearch(text, w).Unanswered?
    ensures var (s, s') := (RunSearch(text, w), RunSearch(text, w'));
            && (s.Patches? ==> s' == s)
            && (s.Roms? ==> s'.Roms? && R.SameRoms(s.roms, s'.roms))
  {
    if text == SEARCH_PATCH {
      D.PatchSearchIgnoresOrder(w.directory, w'.directory, w.version.value);
    } else {
      R.RomSearchIgnoresOrder(w.directory, w'.directory, w.version.value);
    }
  }

  /** When the search succeeds, the listing order changes neither the reply, nor its outcome, nor any property. */
  lemma ReplyIgnoresOrder(c: Command, w: World, w': World)
    requires w'.(directory := w.directory) == w && D.Reordered(w.directory, w'.directory)
    requires !RunSearch(c.text, w).Unanswered?
    ensures Handle(c, w') == Handle(c, w)
  {
    SearchIgnoresOrder(c.text, w, w');
    EverySearchIsAnswerable(c.text, w);
    EverySearchIsAnswerable(c.text, w');
    var (s, s') := (RunSearch(c.text, w), RunSearch(c.text, w'));
    if s.Roms? { SameRomRecords(s.roms, s'.roms, R.ROM_TYPES); }
    assert AnswerOf(s) == AnswerOf(s');
    assert Publications(s) == Publications(s');
  }
}
