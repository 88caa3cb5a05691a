/**
 Discovery of the ROM images of wmt_rom_search: at most one file per type, and version texts that must agree between
 all files that carry one. An empty result is a success.
 */
module RomDiscovery {
  import opened Common
  import opened Bytes
  import opened Errno
  import P = PatchSet
  import B = BtVersion
  import Permutations
  import C = Collection
  import opened FirmwareDiscovery

  const ROM_TYPES: nat := 5
  const HEADER_SIZE: nat := 32
  const FILE_LIMIT: nat := 1024 * 1024
  const RAM_WIFI: seq<Byte> := B.Ascii("ram_wifi")
  const RAM_BT: seq<Byte> := B.Ascii("ram_bt")

  datatype RomInfo = RomInfo(romType: nat, address: seq<Byte>, name: seq<Byte>)

  datatype RomSet = RomSet(
    count: nat, seen: nat, records: seq<RomInfo>,
    hasWifi: bool, hasBt: bool, wifiVersion: seq<Byte>, btVersion: seq<Byte>)

  predicate RomShape(f: RomSet) { |f.records| == ROM_TYPES }

  function NoRom(): RomInfo { RomInfo(0, Zeros(4), Zeros(NAME_SIZE)) }

  function NoRoms(): (f: RomSet)
    ensures RomShape(f)
  {
    RomSet(0, 0, seq(ROM_TYPES, _ => NoRom()), false, false, Zeros(16), Zeros(B.VERSION_SIZE))
  }

  predicate Contains(name: seq<Byte>, text: seq<Byte>) { B.FindFrom(name, text, 0).Some? }

  /** read_bt_version: the 92-byte buffer, or None when the file carries no version. */
  function ReadBtVersion(c: Candidate): (r: Outcome<Option<seq<Byte>>>)
    ensures r.Stopped? ==> -4095 <= r.errno < 0
  {
    if c.statSize < HEADER_SIZE then Stopped(-EMSGSIZE)
    else if c.statSize > FILE_LIMIT then Stopped(-EFBIG)
    else if c.noMemory then Stopped(-ENOMEM)
    else if c.seekError != 0 then Stopped(c.seekError)
    else if c.bodyError != 0 then Stopped(c.bodyError)
    else if |c.data| < c.statSize then Stopped(-EMSGSIZE)
    else if c.extraError != 0 then Stopped(c.extraError)
    else if |c.data| > c.statSize then Stopped(-ESTALE)
    else
      match B.Extract(c.data)
      case Malformed => Stopped(-EBADMSG)
      case Absent => Found(None)
      case Present(buffer) => Found(Some(buffer))
  }

  /** The wifi version of a file, when its name calls for one. */
  function WifiVersion(c: Candidate): Option<seq<Byte>>
    requires HEADER_SIZE <= |c.data|
  {
    if Contains(c.name, RAM_WIFI) then Some(P.BuildVersion(c.data[..HEADER_SIZE])) else None
  }

  function MaybeBtVersion(c: Candidate): (r: Outcome<Option<seq<Byte>>>)
    ensures r.Stopped? ==> -4095 <= r.errno < 0
  {
    if Contains(c.name, RAM_BT) then ReadBtVersion(c) else Found(None)
  }

  /** Records a version buffer unless it differs, as a C string, from the one already held. */
  function NoteWifi(f: RomSet, version: Option<seq<Byte>>): (r: Outcome<RomSet>)
    requires RomShape(f)
    ensures if r.Found? then RomShape(r.value) else -4095 <= r.errno < 0
  {
    if version.None? then Found(f)
    else if f.hasWifi && CStr(f.wifiVersion) != CStr(version.value) then Stopped(-EINVAL)
    else Found(f.(hasWifi := true, wifiVersion := version.value))
  }

  function NoteBt(f: RomSet, version: Option<seq<Byte>>): (r: Outcome<RomSet>)
    requires RomShape(f)
    ensures if r.Found? then RomShape(r.value) else -4095 <= r.errno < 0
  {
    if version.None? then Found(f)
    else if f.hasBt && CStr(f.btVersion) != CStr(version.value) then Stopped(-EINVAL)
    else Found(f.(hasBt := true, btVersion := version.value))
  }

  function RomOf(c: Candidate): RomInfo
    requires HEADER_SIZE <= |c.data| && |c.name| <= NAME_SIZE
  {
    RomInfo(c.data[31], [0] + c.data[25..28], P.NameField(c.name))
  }

  function Store(f: RomSet, info: RomInfo): (r: RomSet)
    requires RomShape(f) && info.romType < ROM_TYPES
    ensures RomShape(r)
  {
    f.(records := f.records[info.romType := info], seen := SetBit(f.seen, info.romType), count := f.count + 1)
  }

  /** The part of read_rom after the header was accepted. */
  function AddRom(f: RomSet, c: Candidate): (r: Outcome<RomSet>)
    requires RomShape(f) && HEADER_SIZE <= |c.data| && |c.name| <= NAME_SIZE && c.data[31] < ROM_TYPES
    ensures if r.Found? then RomShape(r.value) else -4095 <= r.errno < 0
  {
    if Bit(f.seen, c.data[31]) then Stopped(-EEXIST)
    else
      var w := NoteWifi(f, WifiVersion(c));
      var version := MaybeBtVersion(c);
      if w.Stopped? then w
      else if version.Stopped? then Stopped(version.errno)
      else
        var b := NoteBt(w.value, version.value);
        if b.Stopped? then b else Found(Store(b.value, RomOf(c)))
  }

  /** read_rom. */
  function ReadRom(f: RomSet, c: Candidate, firmware: nat): (r: Outcome<RomSet>)
    requires RomShape(f)
    ensures if r.Found? then RomShape(r.value) else -4095 <= r.errno < 0
  {
    if !P.GoodBasename(c.name) then Stopped(-EINVAL)
    else if HeaderError(c, HEADER_SIZE) != 0 then Stopped(HeaderError(c, HEADER_SIZE))
    else if c.data[23] != firmware % 256 then Found(f)
    else if c.data[27] < 16 || c.data[31] >= ROM_TYPES then Stopped(-EINVAL)
    else AddRom(f, c)
  }

  function VisitRom(f: RomSet, c: Candidate, firmware: nat): (r: Outcome<RomSet>)
    requires RomShape(f)
    ensures if r.Found? then RomShape(r.value) else -4095 <= r.errno < 0
  {
    if !(ROM_PREFIX <= c.name) then Found(f)
    else if AccessError(c) != 0 then Stopped(AccessError(c))
    else
      var r := ReadRom(f, c, firmware);
      if r.Found? && c.closeError != 0 then Stopped(c.closeError) else r
  }

  function ScanRoms(cs: seq<Candidate>, firmware: nat): (r: Outcome<RomSet>)
    ensures if r.Found? then RomShape(r.value) else -4095 <= r.errno < 0
  {
    if cs == [] then Found(NoRoms())
    else
      var before := ScanRoms(cs[..|cs| - 1], firmware);
      if before.Stopped? then before else VisitRom(before.value, cs[|cs| - 1], firmware)
  }

  /** The first error ends the scan. */
  lemma {:induction false} ScanRomsStops(cs: seq<Candidate>, firmware: nat, i: nat)
    requires i <= |cs| && ScanRoms(cs[..i], firmware).Stopped?
    ensures ScanRoms(cs, firmware) == ScanRoms(cs[..i], firmware)
    decreases |cs|
  {
    if i < |cs| {
      assert cs[..|cs| - 1][..i] == cs[..i];
      ScanRomsStops(cs[..|cs| - 1], firmware, i);
    } else {
      assert cs[..i] == cs;
    }
  }

  /** wmt_rom_search. */
  function SearchRoms(d: Directory, firmware: nat): (r: Outcome<RomSet>)
    ensures if r.Found? then RomShape(r.value) else -4095 <= r.errno < 0
  {
    Close(d, ScanRoms(d.entries, firmware))
  }

  // ---------------------------------------------------------------- the collection behind the scan

  function Text(buffer: Option<seq<Byte>>): Option<seq<Byte>>
  {
    if buffer.Some? then Some(CStr(buffer.value)) else None
  }

  function RomItem(c: Candidate): C.Item<RomInfo>
    requires HEADER_SIZE <= |c.data| && |c.name| <= NAME_SIZE && MaybeBtVersion(c).Found?
  {
    C.Item(c.data[31], 0, RomOf(c), Text(WifiVersion(c)), Text(MaybeBtVersion(c).value))
  }

  function RomEntry(c: Candidate, firmware: nat): C.Entry<RomInfo>
  {
    if !(ROM_PREFIX <= c.name) then C.Skip
    else if AccessError(c) != 0 || !P.GoodBasename(c.name) || HeaderError(c, HEADER_SIZE) != 0 || c.closeError != 0
    then C.Bad
    else if c.data[23] != firmware % 256 then C.Skip
    else if c.data[27] < 16 || c.data[31] >= ROM_TYPES || MaybeBtVersion(c).Stopped? then C.Bad
    else C.Good(RomItem(c))
  }

  function ExamineRom(firmware: nat): Candidate -> C.Entry<RomInfo>
  {
    (c: Candidate) => RomEntry(c, firmware)
  }

  function RomEntries(cs: seq<Candidate>, firmware: nat): seq<C.Entry<RomInfo>>
  {
    Permutations.Map(ExamineRom(firmware), cs)
  }

  predicate HoldsText(has: bool, buffer: seq<Byte>, text: Option<seq<Byte>>, size: nat)
  {
    has == text.Some? && (if has then CStr(buffer) == text.value else buffer == Zeros(size))
  }

  predicate TellsTable(f: RomSet, table: map<nat, RomInfo>)
  {
    && RomShape(f) && f.count == |table| && f.seen == MaskOf(Flags(table, ROM_TYPES))
    && forall k :: 0 <= k < ROM_TYPES ==> f.records[k] == if k in table then table[k] else NoRom()
  }

  /** The result structure tells what the summary tells; version buffers are compared as C strings. */
  predicate Tells(f: RomSet, s: C.Summary<RomInfo>)
  {
    && TellsTable(f, s.table)
    && HoldsText(f.hasWifi, f.wifiVersion, s.first, 16)
    && HoldsText(f.hasBt, f.btVersion, s.second, B.VERSION_SIZE)
  }

  predicate OneGroup(s: C.Summary<RomInfo>) { s.group.Some? ==> s.group.value == 0 }

  /** Both versions can be noted exactly when they agree with what is held; the images are not touched. */
  lemma NotesAgree(f: RomSet, s: C.Summary<RomInfo>, wifi: Option<seq<Byte>>, bt: Option<seq<Byte>>)
    requires Tells(f, s)
    ensures NoteWifi(f, wifi).Found? && NoteBt(NoteWifi(f, wifi).value, bt).Found? <==>
            C.Agree(s.first, Text(wifi)) && C.Agree(s.second, Text(bt))
    ensures NoteWifi(f, wifi).Found? && NoteBt(NoteWifi(f, wifi).value, bt).Found? ==>
            Tells(NoteBt(NoteWifi(f, wifi).value, bt).value,
                s.(first := C.Or(s.first, Text(wifi)), second := C.Or(s.second, Text(bt))))
  {
  }

  lemma StoreTells(f: RomSet, s: C.Summary<RomInfo>, info: RomInfo)
    requires Tells(f, s) && info.romType < ROM_TYPES && info.romType !in s.table
    ensures Tells(Store(f, info), s.(table := s.table[info.romType := info]))
  {
    var flags := Flags(s.table, ROM_TYPES);
    SetBitOfMask(flags, info.romType);
    assert Flags(s.table[info.romType := info], ROM_TYPES) == flags[info.romType := true];
  }

  lemma SeenExactly(f: RomSet, s: C.Summary<RomInfo>, t: nat)
    requires Tells(f, s) && t < ROM_TYPES
    ensures Bit(f.seen, t) <==> t in s.table
  {
    BitOfMask(Flags(s.table, ROM_TYPES), t);
  }

  /** Recording both versions and the image is extending the summary. */
  lemma StoreCollects(f: RomSet, s: C.Summary<RomInfo>, info: RomInfo, wifi: Option<seq<Byte>>, bt: Option<seq<Byte>>)
    requires Tells(f, s) && OneGroup(s) && info.romType < ROM_TYPES
    ensures var x := C.Item(info.romType, 0, info, Text(wifi), Text(bt));
            && (C.Fits(s, x) <==>
                  && !Bit(f.seen, info.romType) && NoteWifi(f, wifi).Found?
                  && NoteBt(NoteWifi(f, wifi).value, bt).Found?)
            && (C.Fits(s, x) ==>
                  && OneGroup(C.Extend(s, x))
                  && Tells(Store(NoteBt(NoteWifi(f, wifi).value, bt).value, info), C.Extend(s, x)))
  {
    SeenExactly(f, s, info.romType);
    NotesAgree(f, s, wifi, bt);
    var x := C.Item(info.romType, 0, info, Text(wifi), Text(bt));
    if C.Fits(s, x) {
      StoreTells(NoteBt(NoteWifi(f, wifi).value, bt).value,
          s.(first := C.Or(s.first, Text(wifi)), second := C.Or(s.second, Text(bt))), info);
    }
  }

  lemma AddRomCollects(f: RomSet, s: C.Summary<RomInfo>, c: Candidate)
    requires Tells(f, s) && OneGroup(s)
    requires HEADER_SIZE <= |c.data| && |c.name| <= NAME_SIZE && c.data[31] < ROM_TYPES
    ensures AddRom(f, c).Found? <==> MaybeBtVersion(c).Found? && C.Fits(s, RomItem(c))
    ensures AddRom(f, c).Found? ==>
              Tells(AddRom(f, c).value, C.Extend(s, RomItem(c))) && OneGroup(C.Extend(s, RomItem(c)))
  {
    if MaybeBtVersion(c).Found? { StoreCollects(f, s, RomOf(c), WifiVersion(c), MaybeBtVersion(c).value); }
  }

  lemma VisitRomCollects(f: RomSet, s: C.Summary<RomInfo>, c: Candidate, firmware: nat)
    requires Tells(f, s) && OneGroup(s)
    ensures var r := VisitRom(f, c, firmware);
            var v := C.Visit(s, RomEntry(c, firmware));
            && (r.Found? <==> v.Some?)
            && (v.Some? ==> Tells(r.value, v.value) && OneGroup(v.value))
  {
    if P.GoodBasename(c.name) && HEADER_SIZE <= |c.data| && c.data[31] < ROM_TYPES { AddRomCollects(f, s, c); }
  }

  lemma {:induction false} ScanRomsCollects(cs: seq<Candidate>, firmware: nat)
    ensures var v := C.Collect(RomEntries(cs, firmware));
            && (ScanRoms(cs, firmware).Found? <==> v.Some?)
            && (v.Some? ==> OneGroup(v.value) && Tells(ScanRoms(cs, firmware).value, v.value))
    decreases |cs|
  {
    var es := RomEntries(cs, firmware);
    if cs == [] {
      EmptyMask(ROM_TYPES);
      var nothing: C.Summary<RomInfo> := C.Nothing();
      assert Flags(nothing.table, ROM_TYPES) == seq(ROM_TYPES, _ => false);
      assert Tells(NoRoms(), nothing);
    } else {
      var rest := cs[..|cs| - 1];
      assert es[..|es| - 1] == RomEntries(rest, firmware);
      ScanRomsCollects(rest, firmware);
      var before := C.Collect(RomEntries(rest, firmware));
      if before.Some? { VisitRomCollects(ScanRoms(rest, firmware).value, before.value, cs[|cs| - 1], firmware); }
    }
  }

  // ---------------------------------------------------------------- theorems about the ROM search

  /** The same records by type, the same flags, and the same version texts. */
  predicate SameRoms(f: RomSet, g: RomSet)
  {
    && f.count == g.count && f.seen == g.seen && f.records == g.records && f.hasWifi == g.hasWifi && f.hasBt == g.hasBt
    && CStr(f.wifiVersion) == CStr(g.wifiVersion) && CStr(f.btVersion) == CStr(g.btVersion)
  }

  lemma TellsTheSame(f: RomSet, g: RomSet, s: C.Summary<RomInfo>)
    requires Tells(f, s) && Tells(g, s)
    ensures SameRoms(f, g)
  {
    assert f.records == g.records;
  }

  /** Listing order decides neither success nor what a successful ROM search reports. */
  lemma RomSearchIgnoresOrder(d: Directory, d': Directory, firmware: nat)
    requires Reordered(d, d')
    ensures SearchRoms(d, firmware).Found? <==> SearchRoms(d', firmware).Found?
    ensures SearchRoms(d, firmware).Found? ==> SameRoms(SearchRoms(d, firmware).value, SearchRoms(d', firmware).value)
  {
    var es, es' := RomEntries(d.entries, firmware), RomEntries(d'.entries, firmware);
    Permutations.MapPermutes(ExamineRom(firmware), d.entries, d'.entries);
    C.CollectIgnoresOrder(es, es');
    ScanRomsCollects(d.entries, firmware);
    ScanRomsCollects(d'.entries, firmware);
    if SearchRoms(d, firmware).Found? {
      TellsTheSame(SearchRoms(d, firmware).value, SearchRoms(d', firmware).value, C.Collect(es).value);
    }
  }

  /** The search succeeds exactly on a readable directory whose files are readable, of distinct types and in
      agreement. */
  lemma RomSearchSucceedsExactly(d: Directory, firmware: nat)
    ensures SearchRoms(d, firmware).Found? <==> DirectoryReadable(d) && C.Harmonious(RomEntries(d.entries, firmware))
  {
    ScanRomsCollects(d.entries, firmware);
    C.CollectExactly(RomEntries(d.entries, firmware));
  }

  /** Candidate `c` is the image of type `t` for this firmware. */
  predicate IsRom(c: Candidate, firmware: nat, t: nat, info: RomInfo)
  {
    && ROM_PREFIX <= c.name && P.GoodBasename(c.name) && AccessError(c) == 0 && c.readError == 0 && c.closeError == 0
    && HEADER_SIZE <= |c.data| && c.data[23] == firmware % 256 && c.data[27] / 16 != 0 && c.data[31] == t
    && info == RomInfo(t, [0] + c.data[25..28], P.NameField(c.name))
  }

  lemma SummaryOf(d: Directory, firmware: nat) returns (s: C.Summary<RomInfo>)
    requires SearchRoms(d, firmware).Found?
    ensures Tells(SearchRoms(d, firmware).value, s) && C.Summarizes(s, RomEntries(d.entries, firmware))
  {
    ScanRomsCollects(d.entries, firmware);
    C.CollectExactly(RomEntries(d.entries, firmware));
    s := C.Collect(RomEntries(d.entries, firmware)).value;
  }

  /** Every type seen in a found set is a file of the directory: its name and header fields. */
  lemma FoundRomsAreTheFiles(d: Directory, firmware: nat, t: nat) returns (c: Candidate)
    requires SearchRoms(d, firmware).Found? && t < ROM_TYPES && Bit(SearchRoms(d, firmware).value.seen, t)
    ensures RomShape(SearchRoms(d, firmware).value)
    ensures c in d.entries && IsRom(c, firmware, t, SearchRoms(d, firmware).value.records[t])
  {
    var s := SummaryOf(d, firmware);
    var es := RomEntries(d.entries, firmware);
    SeenExactly(SearchRoms(d, firmware).value, s, t);
    var i := KeyHolder(s, es, t);
    c := d.entries[i];
  }

  /** A summarized item is reported: its record by type and its version texts. */
  predicate Reports(f: RomSet, x: C.Item<RomInfo>)
  {
    && RomShape(f) && x.key < ROM_TYPES && Bit(f.seen, x.key) && f.records[x.key] == x.content
    && (x.first.Some? ==> f.hasWifi && CStr(f.wifiVersion) == x.first.value)
    && (x.second.Some? ==> f.hasBt && CStr(f.btVersion) == x.second.value)
  }

  lemma SummaryReports(f: RomSet, s: C.Summary<RomInfo>, es: seq<C.Entry<RomInfo>>, e: C.Entry<RomInfo>)
    requires Tells(f, s) && C.Summarizes(s, es) && e in es && e.Good? && e.item.key < ROM_TYPES
    ensures Reports(f, e.item)
  {
    SeenExactly(f, s, e.item.key);
  }

  lemma EntryTypes(cs: seq<Candidate>, firmware: nat)
    ensures forall e :: e in RomEntries(cs, firmware) && e.Good? ==> e.item.key < ROM_TYPES
  {
    var es := RomEntries(cs, firmware);
    forall e | e in es && e.Good? ensures e.item.key < ROM_TYPES {
      var i :| 0 <= i < |es| && es[i] == e;
      assert e == RomEntry(cs[i], firmware);
    }
  }

  /** Every matching file is in a found set, and every version such a file carries is the one reported. */
  lemma MatchingRomsAreReported(d: Directory, firmware: nat, e: C.Entry<RomInfo>)
    requires SearchRoms(d, firmware).Found? && e in RomEntries(d.entries, firmware) && e.Good?
    ensures Reports(SearchRoms(d, firmware).value, e.item)
  {
    var s := SummaryOf(d, firmware);
    EntryTypes(d.entries, firmware);
    SummaryReports(SearchRoms(d, firmware).value, s, RomEntries(d.entries, firmware), e);
  }
}
