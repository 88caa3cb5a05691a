/** The discovery loops as the code runs them, filling their result structures in place. */
module DiscoveryCode {
  import opened Common
  import opened Bytes
  import opened Errno
  import P = PatchSet
  import B = BtVersion
  import opened FirmwareDiscovery
  import opened RomDiscovery

  // ---------------------------------------------------------------- patches

  /** read_patch: fills the slot of the file's sequence, or reports the error. */
  method ConsumePatch(table: P.PatchTable, versions: array<seq<Byte>>, c: Candidate, firmware: nat) returns (error: int)
    requires table.Valid() && versions.Length == P.MAX_PATCHES
    modifies table, table.records, versions
    ensures table.Valid()
    ensures match ReadPatch(Firmware(old(table.View()), old(versions[..])), c, firmware)
            case Found(f) => error == 0 && f == Firmware(table.View(), versions[..])
            case Stopped(e) => error == e
  {
    error := HeaderError(c, P.HEADER_BYTES);
    if error != 0 { return; }
    var header := c.data[..P.HEADER_BYTES];
    match P.Parse(header, c.name, firmware)
    case Skipped => return 0;
    case Invalid(e) => return e;
    case Parsed(file) =>
      error := table.AddFile(file);
      if error != 0 { return; }
      versions[file.info.sequence - 1] := P.BuildVersion(header);
  }

  /** One entry of the directory: prefix, open, fstat, consume, close. */
  method TakePatch(table: P.PatchTable, versions: array<seq<Byte>>, c: Candidate, firmware: nat) returns (error: int)
    requires table.Valid() && versions.Length == P.MAX_PATCHES
    modifies table, table.records, versions
    ensures table.Valid()
    ensures match VisitPatch(Firmware(old(table.View()), old(versions[..])), c, firmware)
            case Found(f) => error == 0 && f == Firmware(table.View(), versions[..])
            case Stopped(e) => error == e
  {
    if !(PATCH_PREFIX <= c.name) { return 0; }
    error := AccessError(c);
    if error != 0 { return; }
    error := ConsumePatch(table, versions, c, firmware);
    if c.closeError != 0 && error == 0 { error := c.closeError; }
  }

  /** wmt_firmware_search. */
  method FirmwareSearch(d: Directory, firmware: nat) returns (r: Outcome<Firmware>)
    ensures r == SearchFirmware(d, firmware)
  {
    if d.openError != 0 { return Stopped(d.openError); }
    var table := new P.PatchTable();
    var versions := new seq<Byte>[P.MAX_PATCHES](_ => Zeros(16));
    assert versions[..] == NoFirmware().versions;
    var error, i := 0, 0;
    while i < |d.entries| && error == 0
      invariant 0 <= i <= |d.entries| && table.Valid() && fresh(table) && fresh(table.records) && fresh(versions)
      invariant error == 0 ==> ScanPatches(d.entries[..i], firmware) == Found(Firmware(table.View(), versions[..]))
      invariant error != 0 ==> ScanPatches(d.entries[..i], firmware) == Stopped(error)
    {
      error := TakePatch(table, versions, d.entries[i], firmware);
      assert d.entries[..i + 1][..i] == d.entries[..i];
      i := i + 1;
    }
    if error != 0 {
      ScanPatchesStops(d.entries, firmware, i);
      return Stopped(error);
    }
    assert d.entries[..i] == d.entries;
    if d.readError != 0 { return Stopped(d.readError); }
    if d.closeError != 0 { return Stopped(d.closeError); }
    var rc := table.CheckComplete();
    if rc != 0 { return Stopped(rc); }
    return Found(Firmware(P.Set(table.count, table.seen, table.records[..]), versions[..]));
  }

  // ---------------------------------------------------------------- ROM images

  /** read_bt_version: the whole file goes through bt_version. */
  method LoadBtVersion(c: Candidate) returns (r: Outcome<Option<seq<Byte>>>)
    ensures r == ReadBtVersion(c)
  {
    if c.statSize < HEADER_SIZE { return Stopped(-EMSGSIZE); }
    if c.statSize > FILE_LIMIT { return Stopped(-EFBIG); }
    if c.noMemory { return Stopped(-ENOMEM); }
    if c.seekError != 0 { return Stopped(c.seekError); }
    if c.bodyError != 0 { return Stopped(c.bodyError); }
    if |c.data| < c.statSize { return Stopped(-EMSGSIZE); }
    if c.extraError != 0 { return Stopped(c.extraError); }
    if |c.data| > c.statSize { return Stopped(-ESTALE); }
    var data := new Byte[c.statSize](i requires 0 <= i < |c.data| => c.data[i]);
    var version := new Byte[B.VERSION_SIZE](_ => 0);
    assert data[..] == c.data && version[..] == Zeros(B.VERSION_SIZE);
    var rc, present := B.ReadVersion(data, version);
    if rc != 0 { return Stopped(rc); }
    return Found(if present then Some(version[..]) else None);
  }

  class RomTable {
    var count: nat
    var seen: nat
    const records: array<RomInfo>
    var hasWifi: bool
    var hasBt: bool
    var wifiVersion: seq<Byte>
    var btVersion: seq<Byte>

    ghost predicate Valid()
      reads this
    {
      records.Length == ROM_TYPES
    }

    function View(): RomSet
      reads this, records
    {
      RomSet(count, seen, records[..], hasWifi, hasBt, wifiVersion, btVersion)
    }

    constructor ()
      ensures Valid() && fresh(records) && View() == NoRoms()
    {
      count, seen, hasWifi, hasBt := 0, 0, false, false;
      wifiVersion, btVersion := Zeros(16), Zeros(B.VERSION_SIZE);
      records := new RomInfo[ROM_TYPES](_ => NoRom());
    }

    method KeepWifi(version: Option<seq<Byte>>) returns (error: int)
      requires Valid()
      modifies this`hasWifi, this`wifiVersion
      ensures match NoteWifi(old(View()), version)
              case Found(f) => error == 0 && f == View()
              case Stopped(e) => error == e
    {
      if version.None? { return 0; }
      if hasWifi && CStr(wifiVersion) != CStr(version.value) { return -EINVAL; }
      wifiVersion, hasWifi := version.value, true;
      return 0;
    }

    method KeepBt(version: Option<seq<Byte>>) returns (error: int)
      requires Valid()
      modifies this`hasBt, this`btVersion
      ensures match NoteBt(old(View()), version)
              case Found(f) => error == 0 && f == View()
              case Stopped(e) => error == e
    {
      if version.None? { return 0; }
      if hasBt && CStr(btVersion) != CStr(version.value) { return -EINVAL; }
      btVersion, hasBt := version.value, true;
      return 0;
    }

    /** The part of read_rom after the header was accepted. */
    method KeepRom(c: Candidate) returns (error: int)
      requires Valid() && HEADER_SIZE <= |c.data| && |c.name| <= NAME_SIZE && c.data[31] < ROM_TYPES
      modifies this, records
      ensures match AddRom(old(View()), c)
              case Found(f) => error == 0 && f == View()
              case Stopped(e) => error == e
    {
      if Bit(seen, c.data[31]) { return -EEXIST; }
      error := KeepWifi(WifiVersion(c));
      if error != 0 { return; }
      if Contains(c.name, RAM_BT) {
        var version := LoadBtVersion(c);
        if version.Stopped? { return version.errno; }
        error := KeepBt(version.value);
        if error != 0 { return; }
      }
      Keep(RomOf(c));
    }

    method Keep(info: RomInfo)
      requires Valid() && info.romType < ROM_TYPES
      modifies this`seen, this`count, records
      ensures View() == Store(old(View()), info)
    {
      records[info.romType] := info;
      seen := SetBit(seen, info.romType);
      count := count + 1;
    }

    /** read_rom. */
    method ConsumeRom(c: Candidate, firmware: nat) returns (error: int)
      requires Valid()
      modifies this, records
      ensures match ReadRom(old(View()), c, firmware)
              case Found(f) => error == 0 && f == View()
              case Stopped(e) => error == e
    {
      if !P.GoodBasename(c.name) { return -EINVAL; }
      error := HeaderError(c, HEADER_SIZE);
      if error != 0 { return; }
      if c.data[23] != firmware % 256 { return 0; }
      if c.data[27] < 16 || c.data[31] >= ROM_TYPES { return -EINVAL; }
      error := KeepRom(c);
    }

    method TakeRom(c: Candidate, firmware: nat) returns (error: int)
      requires Valid()
      modifies this, records
      ensures match VisitRom(old(View()), c, firmware)
              case Found(f) => error == 0 && f == View()
              case Stopped(e) => error == e
    {
      if !(ROM_PREFIX <= c.name) { return 0; }
      error := AccessError(c);
      if error != 0 { return; }
      error := ConsumeRom(c, firmware);
      if c.closeError != 0 && error == 0 { error := c.closeError; }
    }
  }

  /** wmt_rom_search. */
  method RomSearch(d: Directory, firmware: nat) returns (r: Outcome<RomSet>)
    ensures r == SearchRoms(d, firmware)
  {
    if d.openError != 0 { return Stopped(d.openError); }
    var table := new RomTable();
    var error, i := 0, 0;
    while i < |d.entries| && error == 0
      invariant 0 <= i <= |d.entries| && table.Valid() && fresh(table) && fresh(table.records)
      invariant error == 0 ==> ScanRoms(d.entries[..i], firmware) == Found(table.View())
      invariant error != 0 ==> ScanRoms(d.entries[..i], firmware) == Stopped(error)
    {
      error := table.TakeRom(d.entries[i], firmware);
      assert d.entries[..i + 1][..i] == d.entries[..i];
      i := i + 1;
    }
    if error != 0 {
      ScanRomsStops(d.entries, firmware, i);
      return Stopped(error);
    }
    assert d.entries[..i] == d.entries;
    if d.readError != 0 { return Stopped(d.readError); }
    if d.closeError != 0 { return Stopped(d.closeError); }
    return Found(table.View());
  }
}
