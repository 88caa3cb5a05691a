/**
 Firmware discovery: the files of a directory are visited in whatever order the file system lists them, the first
 error stops the search, and the accepted headers are collected by sequence (patches) or type (ROM images).
 The outcome of every system call on an entry is part of the entry.
 */
module FirmwareDiscovery {
  import opened Common
  import opened Bytes
  import opened Errno
  import P = PatchSet
  import B = BtVersion
  import Permutations
  import C = Collection

  const PATCH_PREFIX: seq<Byte> := B.Ascii("ROMv2_lm_patch")
  const ROM_PREFIX: seq<Byte> := B.Ascii("soc1_0_ram")

  /** A directory entry and what the system calls on it report. */
  datatype Candidate = Candidate(
    name: Name, openError: Status, statError: Status, regular: bool,
    data: seq<Byte>, statSize: nat, readError: Status,
    noMemory: bool, seekError: Status, bodyError: Status, extraError: Status, closeError: Status)

  datatype Directory = Directory(openError: Status, entries: seq<Candidate>, readError: Status, closeError: Status)

  datatype Outcome<+F> = Found(value: F) | Stopped(errno: int)

  /** openat, fstat and the regular-file test; 0 when the file can be read. */
  function AccessError(c: Candidate): Status
  {
    if c.openError != 0 then c.openError else if c.statError != 0 then c.statError
    else if !c.regular then -EINVAL else 0
  }

  /** read_exact of a header. */
  function HeaderError(c: Candidate, n: nat): Status
  {
    if c.readError != 0 then c.readError else if |c.data| < n then -EMSGSIZE else 0
  }

  // ---------------------------------------------------------------- patches

  datatype Firmware = Firmware(patches: P.Set, versions: seq<seq<Byte>>)

  predicate FirmwareShape(f: Firmware) { P.Shape(f.patches) && |f.versions| == P.MAX_PATCHES }

  function NoFirmware(): (f: Firmware)
    ensures FirmwareShape(f)
  {
    Firmware(P.Empty(), seq(P.MAX_PATCHES, _ => Zeros(16)))
  }

  /** read_patch. */
  function ReadPatch(f: Firmware, c: Candidate, firmware: nat): (r: Outcome<Firmware>)
    requires FirmwareShape(f)
    ensures if r.Found? then FirmwareShape(r.value) else -4095 <= r.errno < 0
  {
    var error := HeaderError(c, P.HEADER_BYTES);
    if error != 0 then Stopped(error)
    else
      var header := c.data[..P.HEADER_BYTES];
      match P.Parse(header, c.name, firmware)
      case Skipped => Found(f)
      case Invalid(e) => Stopped(e)
      case Parsed(file) =>
        match P.Add(f.patches, file)
        case Rejected(e) => Stopped(e)
        case Added(s) => Found(Firmware(s, f.versions[file.info.sequence - 1 := P.BuildVersion(header)]))
  }

  /** One turn of search_directory's loop. */
  function VisitPatch(f: Firmware, c: Candidate, firmware: nat): (r: Outcome<Firmware>)
    requires FirmwareShape(f)
    ensures if r.Found? then FirmwareShape(r.value) else -4095 <= r.errno < 0
  {
    if !(PATCH_PREFIX <= c.name) then Found(f)
    else if AccessError(c) != 0 then Stopped(AccessError(c))
    else
      var r := ReadPatch(f, c, firmware);
      if r.Found? && c.closeError != 0 then Stopped(c.closeError) else r
  }

  function ScanPatches(cs: seq<Candidate>, firmware: nat): (r: Outcome<Firmware>)
    ensures if r.Found? then FirmwareShape(r.value) else -4095 <= r.errno < 0
  {
    if cs == [] then Found(NoFirmware())
    else
      var before := ScanPatches(cs[..|cs| - 1], firmware);
      if before.Stopped? then before else VisitPatch(before.value, cs[|cs| - 1], firmware)
  }

  /** The first error ends the scan. */
  lemma {:induction false} ScanPatchesStops(cs: seq<Candidate>, firmware: nat, i: nat)
    requires i <= |cs| && ScanPatches(cs[..i], firmware).Stopped?
    ensures ScanPatches(cs, firmware) == ScanPatches(cs[..i], firmware)
    decreases |cs|
  {
    if i < |cs| {
      assert cs[..|cs| - 1][..i] == cs[..i];
      ScanPatchesStops(cs[..|cs| - 1], firmware, i);
    } else {
      assert cs[..i] == cs;
    }
  }

  /** What happens around the loop: opendir, the final readdir and closedir. */
  function Close<F>(d: Directory, scanned: Outcome<F>): (r: Outcome<F>)
    requires scanned.Stopped? ==> -4095 <= scanned.errno < 0
    ensures r.Stopped? ==> -4095 <= r.errno < 0
  {
    if d.openError != 0 then Stopped(d.openError)
    else if scanned.Stopped? then scanned
    else if d.readError != 0 then Stopped(d.readError)
    else if d.closeError != 0 then Stopped(d.closeError)
    else scanned
  }

  /** wmt_firmware_search. */
  function SearchFirmware(d: Directory, firmware: nat): (r: Outcome<Firmware>)
    ensures if r.Found? then FirmwareShape(r.value) else -4095 <= r.errno < 0
  {
    var r := Close(d, ScanPatches(d.entries, firmware));
    if r.Stopped? then r
    else
      var rc := P.Complete(r.value.patches);
      if rc != 0 then Stopped(rc) else r
  }

  // ---------------------------------------------------------------- the collection behind the scan

  /** What one directory entry contributes, whatever was found before it. */
  function ExaminePatch(firmware: nat): Candidate -> C.Entry<(P.Info, seq<Byte>)>
  {
    (c: Candidate) => PatchEntry(c, firmware)
  }

  function PatchEntry(c: Candidate, firmware: nat): C.Entry<(P.Info, seq<Byte>)>
  {
    if !(PATCH_PREFIX <= c.name) then C.Skip
    else if AccessError(c) != 0 || HeaderError(c, P.HEADER_BYTES) != 0 || c.closeError != 0 then C.Bad
    else
      var header := c.data[..P.HEADER_BYTES];
      match P.Parse(header, c.name, firmware)
      case Skipped => C.Skip
      case Invalid(_) => C.Bad
      case Parsed(file) =>
        C.Good(C.Item(file.info.sequence - 1, file.count, (file.info, P.BuildVersion(header)), None, None))
  }

  function PatchEntries(cs: seq<Candidate>, firmware: nat): seq<C.Entry<(P.Info, seq<Byte>)>>
  {
    Permutations.Map(ExaminePatch(firmware), cs)
  }

  function Flags<R>(table: map<nat, R>, n: nat): (r: seq<bool>)
    ensures |r| == n && forall i :: 0 <= i < n ==> r[i] == (i in table)
  {
    seq(n, i => i in table)
  }

  /** The result structure a summary stands for: records and versions by sequence, absent slots zero. */
  function FirmwareOf(s: C.Summary<(P.Info, seq<Byte>)>): (f: Firmware)
    ensures FirmwareShape(f)
  {
    Firmware(
      P.Set(if s.group.Some? then s.group.value else 0, MaskOf(Flags(s.table, P.MAX_PATCHES)),
            seq(P.MAX_PATCHES, i => if i in s.table then s.table[i].0 else P.NoInfo())),
      seq(P.MAX_PATCHES, i => if i in s.table then s.table[i].1 else Zeros(16)))
  }

  predicate GoodGroup(s: C.Summary<(P.Info, seq<Byte>)>) { s.group.Some? ==> 0 < s.group.value <= P.MAX_PATCHES }

  /** Adding a parsed file is extending the summary. */
  lemma AddIsExtend(s: C.Summary<(P.Info, seq<Byte>)>, file: P.File, version: seq<Byte>)
    requires GoodGroup(s) && P.GoodFile(file) && 0 in file.info.name
    ensures var x := C.Item(file.info.sequence - 1, file.count, (file.info, version), None, None);
            var f := FirmwareOf(s);
            && (P.Add(f.patches, file).Added? <==> C.Fits(s, x))
            && (C.Fits(s, x) ==>
                  && GoodGroup(C.Extend(s, x))
                  && Firmware(P.Add(f.patches, file).patches, f.versions[x.key := version]) ==
                        FirmwareOf(C.Extend(s, x)))
  {
    var x := C.Item(file.info.sequence - 1, file.count, (file.info, version), None, None);
    var flags := Flags(s.table, P.MAX_PATCHES);
    BitOfMask(flags, x.key);
    if C.Fits(s, x) {
      SetBitOfMask(flags, x.key);
      var s' := C.Extend(s, x);
      assert Flags(s'.table, P.MAX_PATCHES) == flags[x.key := true];
      assert FirmwareOf(s').patches.records == FirmwareOf(s).patches.records[x.key := file.info];
      assert FirmwareOf(s').versions == FirmwareOf(s).versions[x.key := version];
    }
  }

  /** One turn of the loop is one visit of the collection. */
  lemma VisitPatchCollects(s: C.Summary<(P.Info, seq<Byte>)>, c: Candidate, firmware: nat)
    requires GoodGroup(s)
    ensures var r := VisitPatch(FirmwareOf(s), c, firmware);
            var v := C.Visit(s, PatchEntry(c, firmware));
            && (r.Found? <==> v.Some?)
            && (v.Some? ==> GoodGroup(v.value) && r.value == FirmwareOf(v.value))
  {
    if PATCH_PREFIX <= c.name && AccessError(c) == 0 && HeaderError(c, P.HEADER_BYTES) == 0 {
      var header := c.data[..P.HEADER_BYTES];
      match P.Parse(header, c.name, firmware)
      case Skipped =>
      case Invalid(_) =>
      case Parsed(file) =>
        assert file.info.name[|c.name|] == 0;
        AddIsExtend(s, file, P.BuildVersion(header));
    }
  }

  lemma {:induction false} ScanPatchesCollects(cs: seq<Candidate>, firmware: nat)
    ensures var v := C.Collect(PatchEntries(cs, firmware));
            && (ScanPatches(cs, firmware).Found? <==> v.Some?)
            && (v.Some? ==> GoodGroup(v.value) && ScanPatches(cs, firmware) == Found(FirmwareOf(v.value)))
    decreases |cs|
  {
    var es := PatchEntries(cs, firmware);
    if cs == [] {
      EmptyMask(P.MAX_PATCHES);
      var nothing: C.Summary<(P.Info, seq<Byte>)> := C.Nothing();
      assert Flags(nothing.table, P.MAX_PATCHES) == seq(P.MAX_PATCHES, _ => false);
      assert FirmwareOf(nothing).patches.records == P.Empty().records;
      assert FirmwareOf(nothing) == NoFirmware();
    } else {
      var rest := cs[..|cs| - 1];
      assert es[..|es| - 1] == PatchEntries(rest, firmware);
      ScanPatchesCollects(rest, firmware);
      var before := C.Collect(PatchEntries(rest, firmware));
      if before.Some? { VisitPatchCollects(before.value, cs[|cs| - 1], firmware); }
    }
  }

  // ---------------------------------------------------------------- theorems about the patch search

  predicate Reordered(d: Directory, d': Directory)
  {
    d'.(entries := d.entries) == d && multiset(d'.entries) == multiset(d.entries)
  }

  /** The whole search in terms of the collection. */
  lemma SearchCollects(d: Directory, firmware: nat)
    ensures var v := C.Collect(PatchEntries(d.entries, firmware));
            && (SearchFirmware(d, firmware).Found? <==> Accepts(d, v))
            && (Accepts(d, v) ==> SearchFirmware(d, firmware) == Found(FirmwareOf(v.value)))
  {
    ScanPatchesCollects(d.entries, firmware);
  }

  predicate DirectoryReadable(d: Directory) { d.openError == 0 && d.readError == 0 && d.closeError == 0 }

  predicate Accepts(d: Directory, v: Option<C.Summary<(P.Info, seq<Byte>)>>)
  {
    DirectoryReadable(d) && v.Some? && GoodGroup(v.value) && P.Complete(FirmwareOf(v.value).patches) == 0
  }

  /** Listing order decides neither success nor a single byte of the result (only which error is reported). */
  lemma PatchSearchIgnoresOrder(d: Directory, d': Directory, firmware: nat)
    requires Reordered(d, d')
    ensures SearchFirmware(d, firmware).Found? <==> SearchFirmware(d', firmware).Found?
    ensures SearchFirmware(d, firmware).Found? ==> SearchFirmware(d, firmware) == SearchFirmware(d', firmware)
  {
    Permutations.MapPermutes(ExaminePatch(firmware), d.entries, d'.entries);
    C.CollectIgnoresOrder(PatchEntries(d.entries, firmware), PatchEntries(d'.entries, firmware));
    SearchCollects(d, firmware);
    SearchCollects(d', firmware);
  }

  ghost predicate HasKey<R>(es: seq<C.Entry<R>>, k: nat) { exists e :: e in es && e.Good? && e.item.key == k }

  /** All accepted files agree on `count`, and their sequences are exactly 1 to `count`. */
  ghost predicate CompletePatches(es: seq<C.Entry<(P.Info, seq<Byte>)>>, count: nat)
  {
    && 0 < count <= P.MAX_PATCHES
    && (forall e :: e in es && e.Good? ==> e.item.group == count)
    && (forall k :: 0 <= k < P.MAX_PATCHES ==> (HasKey(es, k) <==> k < count))
  }

  ghost predicate FormsSet(es: seq<C.Entry<(P.Info, seq<Byte>)>>) { exists count: nat :: CompletePatches(es, count) }

  lemma SummaryKeys<R>(s: C.Summary<R>, es: seq<C.Entry<R>>)
    requires C.Summarizes(s, es)
    ensures forall k: nat :: k in s.table <==> HasKey(es, k)
  {
    forall k: nat | k in s.table ensures HasKey(es, k) {
      var e :| e in es && e.Good? && e.item.key == k;
    }
  }

  lemma CompleteMeans(s: C.Summary<(P.Info, seq<Byte>)>, es: seq<C.Entry<(P.Info, seq<Byte>)>>)
    requires C.Summarizes(s, es) && GoodGroup(s)
    ensures P.Complete(FirmwareOf(s).patches) == 0 <==> FormsSet(es)
  {
    var patches := FirmwareOf(s).patches;
    SummaryKeys(s, es);
    if FormsSet(es) {
      var count: nat :| CompletePatches(es, count);
      assert HasKey(es, 0);
      assert s.group == Some(count);
    }
    if s.group.Some? {
      P.CompleteExactly(patches, Flags(s.table, P.MAX_PATCHES));
      if P.Complete(patches) == 0 { assert CompletePatches(es, s.group.value); }
    }
  }

  lemma AcceptsExactly(d: Directory, es: seq<C.Entry<(P.Info, seq<Byte>)>>)
    requires C.Collect(es).Some? ==> GoodGroup(C.Collect(es).value)
    ensures Accepts(d, C.Collect(es)) <==> DirectoryReadable(d) && C.Harmonious(es) && FormsSet(es)
  {
    C.CollectExactly(es);
    if C.Collect(es).Some? { CompleteMeans(C.Collect(es).value, es); }
  }

  /** The search succeeds exactly on a readable directory of harmonious files that form one complete set. */
  lemma PatchSearchSucceedsExactly(d: Directory, firmware: nat)
    ensures var es := PatchEntries(d.entries, firmware);
            SearchFirmware(d, firmware).Found? <==> DirectoryReadable(d) && C.Harmonious(es) && FormsSet(es)
  {
    ScanPatchesCollects(d.entries, firmware);
    SearchCollects(d, firmware);
    AcceptsExactly(d, PatchEntries(d.entries, firmware));
  }

  /** Candidate `c` is file `s` of `count` for this firmware. */
  predicate IsPatch(c: Candidate, firmware: nat, count: nat, s: nat, info: P.Info, version: seq<Byte>)
  {
    && PATCH_PREFIX <= c.name && AccessError(c) == 0 && c.readError == 0 && c.closeError == 0
    && P.HEADER_BYTES <= |c.data| && c.data[23] == firmware % 256 && c.data[24] == 16 * count + s
    && P.GoodBasename(c.name)
    && info == P.Info(s, [0] + c.data[25..28], P.NameField(c.name))
    && version == c.data[..15] + [0]
  }

  lemma GoodEntryIsPatch(c: Candidate, firmware: nat)
    requires PatchEntry(c, firmware).Good?
    ensures var x := PatchEntry(c, firmware).item; IsPatch(c, firmware, x.group, x.key + 1, x.content.0, x.content.1)
  {
    var header := c.data[..P.HEADER_BYTES];
    assert header[25..28] == c.data[25..28] && header[..15] == c.data[..15];
  }

  lemma KeyHolder<R>(sum: C.Summary<R>, es: seq<C.Entry<R>>, k: nat) returns (i: nat)
    requires C.Summarizes(sum, es) && k in sum.table
    ensures i < |es| && es[i].Good? && es[i].item.key == k
    ensures sum.table[k] == es[i].item.content && sum.group == Some(es[i].item.group)
  {
    var e :| e in es && e.Good? && e.item.key == k;
    i :| 0 <= i < |es| && es[i] == e;
  }

  lemma CompleteHasKey(sum: C.Summary<(P.Info, seq<Byte>)>, s: nat)
    requires GoodGroup(sum) && P.Complete(FirmwareOf(sum).patches) == 0 && 1 <= s <= FirmwareOf(sum).patches.count
    ensures s - 1 in sum.table && s - 1 < P.MAX_PATCHES
  {
    var flags := Flags(sum.table, P.MAX_PATCHES);
    P.CompleteExactly(FirmwareOf(sum).patches, flags);
    assert flags[s - 1];
  }

  lemma SlotHolder(sum: C.Summary<(P.Info, seq<Byte>)>, es: seq<C.Entry<(P.Info, seq<Byte>)>>, f: Firmware, s: nat)
    returns (i: nat)
    requires C.Summarizes(sum, es) && GoodGroup(sum) && f == FirmwareOf(sum)
    requires P.Complete(f.patches) == 0 && 1 <= s <= f.patches.count
    ensures i < |es| && s <= P.MAX_PATCHES && es[i].Good?
    ensures es[i] == C.Good(C.Item(s - 1, f.patches.count, (f.patches.records[s - 1], f.versions[s - 1]),
                                   es[i].item.first, es[i].item.second))
  {
    CompleteHasKey(sum, s);
    i := KeyHolder(sum, es, s - 1);
  }

  lemma FoundSummary(d: Directory, firmware: nat, f: Firmware) returns (sum: C.Summary<(P.Info, seq<Byte>)>)
    requires SearchFirmware(d, firmware) == Found(f)
    ensures C.Summarizes(sum, PatchEntries(d.entries, firmware)) && GoodGroup(sum) && f == FirmwareOf(sum)
    ensures P.Complete(f.patches) == 0
  {
    SearchCollects(d, firmware);
    var es := PatchEntries(d.entries, firmware);
    C.CollectExactly(es);
    sum := C.Collect(es).value;
  }

  /** Every slot of a found set, 1 to its count, holds a file of the directory: its name and its header fields. */
  lemma FoundPatchesAreTheFiles(d: Directory, firmware: nat, f: Firmware, s: nat) returns (c: Candidate)
    requires SearchFirmware(d, firmware) == Found(f) && 1 <= s <= f.patches.count
    ensures f.patches.count <= P.MAX_PATCHES && FirmwareShape(f)
    ensures c in d.entries && IsPatch(c, firmware, f.patches.count, s, f.patches.records[s - 1], f.versions[s - 1])
  {
    var sum := FoundSummary(d, firmware, f);
    var i := SlotHolder(sum, PatchEntries(d.entries, firmware), f, s);
    c := d.entries[i];
    GoodEntryIsPatch(c, firmware);
  }

  lemma EntrySlots(cs: seq<Candidate>, firmware: nat)
    ensures forall e :: e in PatchEntries(cs, firmware) && e.Good? ==> e.item.key < P.MAX_PATCHES
  {
    var es := PatchEntries(cs, firmware);
    forall e | e in es && e.Good? ensures e.item.key < P.MAX_PATCHES {
      var i :| 0 <= i < |es| && es[i] == e;
      assert e == PatchEntry(cs[i], firmware);
    }
  }

  /** Every matching file is in a found set: its sequence, name, address and build version fill its slot. */
  lemma MatchingPatchesAreFound(d: Directory, firmware: nat, f: Firmware, e: C.Entry<(P.Info, seq<Byte>)>)
    requires SearchFirmware(d, firmware) == Found(f) && e in PatchEntries(d.entries, firmware) && e.Good?
    ensures FirmwareShape(f) && e.item.key < f.patches.count == e.item.group <= P.MAX_PATCHES
    ensures (f.patches.records[e.item.key], f.versions[e.item.key]) == e.item.content
  {
    var sum := FoundSummary(d, firmware, f);
    EntrySlots(d.entries, firmware);
    SlotFilled(sum, PatchEntries(d.entries, firmware), f, e);
  }

  lemma SlotFilled(sum: C.Summary<(P.Info, seq<Byte>)>, es: seq<C.Entry<(P.Info, seq<Byte>)>>, f: Firmware,
                   e: C.Entry<(P.Info, seq<Byte>)>)
    requires C.Summarizes(sum, es) && GoodGroup(sum) && f == FirmwareOf(sum) && P.Complete(f.patches) == 0
    requires e in es && e.Good? && e.item.key < P.MAX_PATCHES
    ensures FirmwareShape(f) && e.item.key < f.patches.count == e.item.group <= P.MAX_PATCHES
    ensures (f.patches.records[e.item.key], f.versions[e.item.key]) == e.item.content
  {
    var flags := Flags(sum.table, P.MAX_PATCHES);
    P.CompleteExactly(f.patches, flags);
    assert flags[e.item.key];
  }
}
