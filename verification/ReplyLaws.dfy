/** What a reader learns from the reply to a command, and which properties the command publishes, file by file. */
module ReplyLaws {
  import opened Common
  import opened Bytes
  import opened WireCodec
  import opened CommandHandler
  import B = BtVersion
  import D = FirmwareDiscovery
  import R = RomDiscovery
  import L = DiscoveryLaws
  import RL = RomLaws

  /** The chip is one of the two supported ones and its firmware version fits sixteen bits. */
  predicate Ready(w: World)
  {
    && w.chip.Value? && w.chip.value in {0x6755, 0x0326}
    && w.version.Value? && w.version.value <= 65535
  }

  predicate AsksPatches(text: seq<Byte>) { text == B.Ascii("srh_patch") }

  predicate AsksRoms(text: seq<Byte>) { text == B.Ascii("srh_rom_patch") }

  predicate PatchesFound(text: seq<Byte>, w: World)
  {
    AsksPatches(text) && Ready(w) && D.SearchFirmware(w.directory, w.version.value).Found?
  }

  predicate RomsFound(text: seq<Byte>, w: World)
  {
    AsksRoms(text) && Ready(w) && R.SearchRoms(w.directory, w.version.value).Found?
  }

  lemma TextsDiffer(text: seq<Byte>)
    ensures !(AsksPatches(text) && AsksRoms(text))
  {
    assert |B.Ascii("srh_patch")| != |B.Ascii("srh_rom_patch")|;
  }

  /** Which search runs, and which status answers a command that finds nothing. */
  lemma SearchExactly(text: seq<Byte>, w: World)
    ensures var s := RunSearch(text, w);
            && (s.Patches? <==> PatchesFound(text, w))
            && (s.Patches? ==> D.SearchFirmware(w.directory, w.version.value) == D.Found(s.firmware))
            && (s.Roms? <==> RomsFound(text, w))
            && (s.Roms? ==> R.SearchRoms(w.directory, w.version.value) == D.Found(s.roms))
            && (s.Unanswered? <==> !PatchesFound(text, w) && !RomsFound(text, w))
  {
    TextsDiffer(text);
  }

  lemma StatusExactly(text: seq<Byte>, w: World)
    requires RunSearch(text, w).Unanswered?
    ensures RunSearch(text, w).status ==
            if !AsksPatches(text) && !AsksRoms(text) then -95
            else if w.chip.Failed? then w.chip.status
            else if w.chip.value !in {0x6755, 0x0326} then -19
            else if w.version.Failed? then w.version.status
            else if w.version.value > 65535 then -34
            else if AsksPatches(text) then D.SearchFirmware(w.directory, w.version.value).errno
            else R.SearchRoms(w.directory, w.version.value).errno
  {
    TextsDiffer(text);
  }

  // ---------------------------------------------------------------- the reply

  /** The record a reader should see for a file: its number, its address after a zero byte, its padded name. */
  function Listed(number: nat, c: D.Candidate): Record
    requires 28 <= |c.data| && |c.name| <= 255
  {
    Record(number, [0] + c.data[25..28], c.name + Zeros(256 - |c.name|))
  }

  ghost predicate Replies(c: Command, w: World, reply: Reply)
  {
    var e := Handle(c, w);
    |e.frames| == 1 && DecodeReply(e.frames[0]) == Some(reply)
  }

  /** A padded name without NUL is its own canonical form. */
  lemma PaddedIsCanonical(number: nat, c: D.Candidate)
    requires number < U32 && 28 <= |c.data| && 3 <= |c.name| && L.Plain(c.name)
    ensures RecordShape(Listed(number, c)) && Canonical(Listed(number, c)) == Listed(number, c)
  {
    DiscoveredName(c.name);
  }

  lemma PatchAt(d: D.Directory, firmware: nat, f: D.Firmware, s: nat) returns (i: nat)
    requires D.SearchFirmware(d, firmware) == D.Found(f) && D.FirmwareShape(f) && 1 <= s <= f.patches.count <= 10
    ensures i < |d.entries| && L.PatchFile(d.entries[i], firmware) && d.entries[i].data[24] % 16 == s
    ensures PatchRecords(f, f.patches.count)[s - 1] == Listed(s, d.entries[i])
    ensures RecordShape(Listed(s, d.entries[i])) && Canonical(Listed(s, d.entries[i])) == Listed(s, d.entries[i])
  {
    i := L.SlotFile(d, firmware, f, s);
    L.FoundSlotsExactly(d, firmware, f, i);
    PaddedIsCanonical(s, d.entries[i]);
  }

  /** The reply to a successful patch search, under the command's identity. */
  lemma PatchReply(c: Command, w: World, f: D.Firmware) returns (reply: Reply)
    requires ValidCommand(c) && PatchesFound(c.text, w)
    requires D.SearchFirmware(w.directory, w.version.value) == D.Found(f)
    ensures Replies(c, w, reply) && D.FirmwareShape(f) && 1 <= f.patches.count <= 10
    ensures (reply.kind, reply.session, reply.transaction, reply.result) == (3, c.session, c.transaction, 0)
    ensures |reply.records| == f.patches.count
    ensures forall i :: 0 <= i < f.patches.count ==>
              var r := PatchRecords(f, f.patches.count)[i]; RecordShape(r) && reply.records[i] == Canonical(r)
  {
    SearchExactly(c.text, w);
    EveryCommandIsAnsweredOnce(c, w);
    FoundPatchesAreEncodable(w.directory, w.version.value, f);
    var records := PatchRecords(f, f.patches.count);
    reply := Reply(3, c.session, c.transaction, 0, Canonicals(records));
  }

  /** Record `s - 1` of a patch reply is the file with sequence `s`. */
  lemma PatchReplyNamesFiles(c: Command, w: World, f: D.Firmware, s: nat) returns (reply: Reply, i: nat)
    requires ValidCommand(c) && PatchesFound(c.text, w)
    requires D.SearchFirmware(w.directory, w.version.value) == D.Found(f) && 1 <= s <= f.patches.count
    ensures Replies(c, w, reply) && |reply.records| == f.patches.count
    ensures (reply.kind, reply.session, reply.transaction, reply.result) == (3, c.session, c.transaction, 0)
    ensures i < |w.directory.entries| && L.PatchFile(w.directory.entries[i], w.version.value)
    ensures w.directory.entries[i].data[24] % 16 == s && reply.records[s - 1] == Listed(s, w.directory.entries[i])
  {
    reply := PatchReply(c, w, f);
    i := PatchAt(w.directory, w.version.value, f, s);
  }

  /** Every accepted patch file is listed, and there are as many records as each of them says. */
  lemma PatchFilesAreListed(c: Command, w: World, i: nat) returns (reply: Reply)
    requires ValidCommand(c) && PatchesFound(c.text, w)
    requires i < |w.directory.entries| && L.PatchFile(w.directory.entries[i], w.version.value)
    ensures Replies(c, w, reply)
    ensures var file := w.directory.entries[i];
            && |reply.records| == file.data[24] / 16
            && reply.records[file.data[24] % 16 - 1] == Listed(file.data[24] % 16, file)
  {
    var d, firmware := w.directory, w.version.value;
    var f := D.SearchFirmware(d, firmware).value;
    reply := PatchReply(c, w, f);
    SlotIsListed(d, firmware, f, i);
  }

  lemma SlotIsListed(d: D.Directory, firmware: nat, f: D.Firmware, i: nat)
    requires D.SearchFirmware(d, firmware) == D.Found(f) && D.FirmwareShape(f) && 1 <= f.patches.count <= 10
    requires i < |d.entries| && L.PatchFile(d.entries[i], firmware)
    ensures var file := d.entries[i];
            var s := file.data[24] % 16;
            && f.patches.count == file.data[24] / 16
            && PatchRecords(f, f.patches.count)[s - 1] == Listed(s, file)
            && RecordShape(Listed(s, file)) && Canonical(Listed(s, file)) == Listed(s, file)
  {
    L.FoundSlotsExactly(d, firmware, f, i);
    PaddedIsCanonical(d.entries[i].data[24] % 16, d.entries[i]);
  }

  // ---------------------------------------------------------------- ROM lists

  /** Records of seen types below `n` only, in the order of their types. */
  ghost predicate SeenInOrder(rs: seq<Record>, f: R.RomSet, n: nat)
    requires R.RomShape(f) && n <= 5
  {
    && (forall k :: 0 <= k < |rs| ==>
          && rs[k].index < n && Bit(f.seen, rs[k].index)
          && rs[k].address == f.records[rs[k].index].address && rs[k].name == f.records[rs[k].index].name)
    && (forall j, k :: 0 <= j < k < |rs| ==> rs[j].index < rs[k].index)
  }

  lemma OneMoreSeen(rs: seq<Record>, f: R.RomSet, n: nat)
    requires R.RomShape(f) && n < 5 && SeenInOrder(rs, f, n)
    ensures SeenInOrder(rs, f, n + 1)
    ensures Bit(f.seen, n) ==> SeenInOrder(rs + [Record(n, f.records[n].address, f.records[n].name)], f, n + 1)
  {
    if Bit(f.seen, n) {
      var r := Record(n, f.records[n].address, f.records[n].name);
      var all := rs + [r];
      forall k | 0 <= k < |all|
        ensures all[k].index < n + 1 && Bit(f.seen, all[k].index)
        ensures all[k].address == f.records[all[k].index].address && all[k].name == f.records[all[k].index].name
      {
        assert all[k] == if k < |rs| then rs[k] else r;
      }
    }
  }

  lemma {:induction false} RomRecordsAreSeen(f: R.RomSet, n: nat)
    requires R.RomShape(f) && n <= 5
    ensures SeenInOrder(RomRecords(f, n), f, n)
    decreases n
  {
    if n > 0 {
      RomRecordsAreSeen(f, n - 1);
      OneMoreSeen(RomRecords(f, n - 1), f, n - 1);
    }
  }

  /** Where the record of a seen type is. */
  lemma {:induction false} SeenRecord(f: R.RomSet, n: nat, t: nat) returns (k: nat)
    requires R.RomShape(f) && t < n <= 5 && Bit(f.seen, t)
    ensures k < |RomRecords(f, n)| && RomRecords(f, n)[k].index == t
    decreases n
  {
    if t == n - 1 {
      k := |RomRecords(f, n - 1)|;
    } else {
      k := SeenRecord(f, n - 1, t);
    }
  }

  lemma RomReply(c: Command, w: World, f: R.RomSet) returns (reply: Reply)
    requires ValidCommand(c) && RomsFound(c.text, w)
    requires R.SearchRoms(w.directory, w.version.value) == D.Found(f)
    ensures Replies(c, w, reply) && R.RomShape(f)
    ensures (reply.kind, reply.session, reply.transaction, reply.result) == (4, c.session, c.transaction, 0)
    ensures var rs := RomRecords(f, 5);
            && |reply.records| == |rs|
            && forall k :: 0 <= k < |rs| ==> RecordShape(rs[k]) && reply.records[k] == Canonical(rs[k])
  {
    SearchExactly(c.text, w);
    EveryCommandIsAnsweredOnce(c, w);
    FoundRomsAreEncodable(w.directory, w.version.value, f);
    reply := Reply(4, c.session, c.transaction, 0, Canonicals(RomRecords(f, 5)));
  }

  lemma RomAt(d: D.Directory, firmware: nat, f: R.RomSet, i: nat, r: Record)
    requires R.SearchRoms(d, firmware) == D.Found(f) && R.RomShape(f)
    requires i < |d.entries| && RL.RomFile(d.entries[i], firmware) && d.entries[i].data[31] == r.index
    requires r.address == f.records[r.index].address && r.name == f.records[r.index].name
    ensures r == Listed(r.index, d.entries[i]) && RecordShape(r) && Canonical(r) == r
  {
    RL.FoundImagesExactly(d, firmware, i);
    PaddedIsCanonical(r.index, d.entries[i]);
  }

  /** Each record of a ROM reply is an accepted image of the type it names, and the types increase. */
  lemma RomReplyNamesImages(c: Command, w: World, f: R.RomSet, k: nat) returns (reply: Reply, i: nat)
    requires ValidCommand(c) && RomsFound(c.text, w)
    requires R.SearchRoms(w.directory, w.version.value) == D.Found(f) && R.RomShape(f) && k < |RomRecords(f, 5)|
    ensures Replies(c, w, reply) && |reply.records| == |RomRecords(f, 5)|
    ensures (reply.kind, reply.session, reply.transaction, reply.result) == (4, c.session, c.transaction, 0)
    ensures i < |w.directory.entries| && RL.RomFile(w.directory.entries[i], w.version.value)
    ensures reply.records[k] == Listed(w.directory.entries[i].data[31], w.directory.entries[i])
    ensures k > 0 ==> reply.records[k - 1].index < reply.records[k].index
  {
    reply := RomReply(c, w, f);
    RomRecordsAreSeen(f, 5);
    var r := RomRecords(f, 5)[k];
    i := RL.SeenImage(w.directory, w.version.value, r.index);
    RomAt(w.directory, w.version.value, f, i, r);
  }

  /** Every accepted image is listed. */
  lemma ImagesAreListed(c: Command, w: World, i: nat) returns (reply: Reply, k: nat)
    requires ValidCommand(c) && RomsFound(c.text, w)
    requires i < |w.directory.entries| && RL.RomFile(w.directory.entries[i], w.version.value)
    ensures Replies(c, w, reply) && k < |reply.records|
    ensures reply.records[k] == Listed(w.directory.entries[i].data[31], w.directory.entries[i])
  {
    var d, firmware := w.directory, w.version.value;
    var f := R.SearchRoms(d, firmware).value;
    reply := RomReply(c, w, f);
    RL.FoundImagesExactly(d, firmware, i);
    RomRecordsAreSeen(f, 5);
    k := SeenRecord(f, 5, d.entries[i].data[31]);
    RomAt(d, firmware, f, i, RomRecords(f, 5)[k]);
  }

  // ---------------------------------------------------------------- refusals and publications

  /** A command that finds nothing is answered with its status, and publishes nothing. */
  lemma RefusalExactly(c: Command, w: World)
    requires ValidCommand(c) && !PatchesFound(c.text, w) && !RomsFound(c.text, w)
    ensures var s := RunSearch(c.text, w);
            && s.Unanswered? && Replies(c, w, Reply(2, c.session, c.transaction, s.status, []))
            && Handle(c, w).published == []
  {
    SearchExactly(c.text, w);
    EveryCommandIsAnsweredOnce(c, w);
    PublishedOnlyWhenAccepted(c, w);
  }

  /** The return value is that of the write, and a short write is a protocol error. */
  lemma ResultExactly(c: Command, w: World)
    requires ValidCommand(c)
    ensures var e := Handle(c, w);
            && |e.frames| == 1
            && e.rc == (match w.write
                        case WriteFailed(status) => status
                        case Wrote(size) => if size == |e.frames[0]| then 0 else -71)
            && (e.rc != 0 ==> e.published == [])
  {
    EveryCommandIsAnsweredOnce(c, w);
  }

  /** An accepted patch reply publishes one property: the build version of the file with sequence 1. */
  lemma PatchPublication(c: Command, w: World, i: nat)
    requires ValidCommand(c) && PatchesFound(c.text, w) && Handle(c, w).rc == 0
    requires i < |w.directory.entries| && L.PatchFile(w.directory.entries[i], w.version.value)
    requires w.directory.entries[i].data[24] % 16 == 1
    ensures Handle(c, w).published == [(PatchVersion, CStr(w.directory.entries[i].data[..15] + [0]))]
  {
    SearchExactly(c.text, w);
    PublishedOnlyWhenAccepted(c, w);
    var f := D.SearchFirmware(w.directory, w.version.value).value;
    L.FoundSlotsExactly(w.directory, w.version.value, f, i);
  }

  /** An accepted ROM reply publishes exactly the versions that accepted images carry, wifi before Bluetooth. */
  lemma RomPublications(c: Command, w: World, version: seq<Byte>)
    requires ValidCommand(c) && RomsFound(c.text, w) && Handle(c, w).rc == 0
    ensures var published := Handle(c, w).published;
            && ((WifiVersion, version) in published <==> RL.WifiFrom(w.directory, w.version.value, version))
            && ((BtVersion, version) in published <==> RL.BtFrom(w.directory, w.version.value, version))
            && (PatchVersion, version) !in published && |published| <= 2
            && (|published| == 2 ==> published[0].0.WifiVersion? && published[1].0.BtVersion?)
  {
    SearchExactly(c.text, w);
    PublishedOnlyWhenAccepted(c, w);
    RL.VersionsExactly(w.directory, w.version.value, version);
    PublicationsOf(R.SearchRoms(w.directory, w.version.value).value, version);
  }

  lemma PublicationsOf(f: R.RomSet, version: seq<Byte>)
    ensures var published := Publications(Roms(f));
            && ((WifiVersion, version) in published <==> f.hasWifi && CStr(f.wifiVersion) == version)
            && ((BtVersion, version) in published <==> f.hasBt && CStr(f.btVersion) == version)
            && (PatchVersion, version) !in published && |published| <= 2
            && (|published| == 2 ==> published[0].0.WifiVersion? && published[1].0.BtVersion?)
  {
  }
}
