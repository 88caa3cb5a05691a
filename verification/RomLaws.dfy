/** Which ROM images a search accepts, refuses and ignores, and the records and version texts it then reports. */
module RomLaws {
  import opened Common
  import opened Bytes
  import B = BtVersion
  import C = Collection
  import D = FirmwareDiscovery
  import R = RomDiscovery
  import L = DiscoveryLaws

  predicate RomNamed(c: D.Candidate) { B.Ascii("soc1_0_ram") <= c.name }

  ghost predicate NamesWifi(c: D.Candidate) { B.Occurs(c.name, B.Ascii("ram_wifi"), 0) }

  ghost predicate NamesBt(c: D.Candidate) { B.Occurs(c.name, B.Ascii("ram_bt"), 0) }

  /** The whole file can be read, is of the size announced, between 32 bytes and one mebibyte, with paired markers. */
  predicate BtReadable(c: D.Candidate)
  {
    && 32 <= c.statSize <= 1048576 && |c.data| == c.statSize && !c.noMemory
    && c.seekError == 0 && c.bodyError == 0 && c.extraError == 0 && !B.Extract(c.data).Malformed?
  }

  /** The mask in the high half of byte 27 is not empty and byte 31 is one of the five types. */
  predicate GoodRomHeader(c: D.Candidate)
    requires 32 <= |c.data|
  {
    16 <= c.data[27] && c.data[31] <= 4
  }

  ghost predicate RomFile(c: D.Candidate, firmware: nat)
  {
    && RomNamed(c) && L.Opens(c) && L.Plain(c.name)
    && 32 <= |c.data| && c.data[23] == firmware % 256 && GoodRomHeader(c) && (NamesBt(c) ==> BtReadable(c))
  }

  ghost predicate BrokenRom(c: D.Candidate, firmware: nat)
  {
    && RomNamed(c)
    && (!L.Opens(c) || !L.Plain(c.name) || |c.data| < 32
        || (c.data[23] == firmware % 256 && (!GoodRomHeader(c) || (NamesBt(c) && !BtReadable(c)))))
  }

  function RomInfoOf(c: D.Candidate): R.RomInfo
    requires 32 <= |c.data| && |c.name| <= 255
  {
    R.RomInfo(c.data[31], [0] + c.data[25..28], c.name + Zeros(256 - |c.name|))
  }

  /** The first fifteen bytes of the file, as a C string. */
  ghost function WifiText(c: D.Candidate): Option<seq<Byte>>
    requires 32 <= |c.data|
  {
    if NamesWifi(c) then Some(CStr(c.data[..15] + [0])) else None
  }

  ghost function BtText(c: D.Candidate): Option<seq<Byte>>
    requires 32 <= |c.data|
  {
    if NamesBt(c) && B.Extract(c.data).Present? then Some(CStr(B.Extract(c.data).buffer)) else None
  }

  lemma BtReadExactly(c: D.Candidate)
    ensures R.ReadBtVersion(c).Found? <==> BtReadable(c)
    ensures BtReadable(c) ==>
              (if B.Extract(c.data).Present? then R.ReadBtVersion(c).value == Some(B.Extract(c.data).buffer)
               else R.ReadBtVersion(c).value.None?)
  {
  }

  lemma NamesExactly(c: D.Candidate)
    ensures R.Contains(c.name, R.RAM_WIFI) <==> NamesWifi(c)
    ensures R.Contains(c.name, R.RAM_BT) <==> NamesBt(c)
  {
    B.FindIsFirst(c.name, B.Ascii("ram_wifi"), 0);
    B.FindIsFirst(c.name, B.Ascii("ram_bt"), 0);
  }

  lemma TextsExactly(c: D.Candidate)
    requires 32 <= |c.data|
    ensures R.Text(R.WifiVersion(c)) == WifiText(c)
    ensures R.MaybeBtVersion(c).Found? <==> (NamesBt(c) ==> BtReadable(c))
    ensures R.MaybeBtVersion(c).Found? ==> R.Text(R.MaybeBtVersion(c).value) == BtText(c)
  {
    NamesExactly(c);
    BtReadExactly(c);
    assert c.data[..32][..15] == c.data[..15];
  }

  lemma RomEntryExactly(c: D.Candidate, firmware: nat)
    ensures var e := R.RomEntry(c, firmware);
            && (e.Good? <==> RomFile(c, firmware))
            && (e.Bad? <==> BrokenRom(c, firmware))
            && (e.Good? ==> e.item == C.Item(c.data[31], 0, RomInfoOf(c), WifiText(c), BtText(c)))
  {
    if 32 <= |c.data| { TextsExactly(c); }
  }

  /** Two images of different types that do not contradict each other's versions. */
  ghost predicate Compatible(a: D.Candidate, b: D.Candidate)
    requires 32 <= |a.data| && 32 <= |b.data|
  {
    && a.data[31] != b.data[31]
    && (WifiText(a).Some? && WifiText(b).Some? ==> WifiText(a) == WifiText(b))
    && (BtText(a).Some? && BtText(b).Some? ==> BtText(a) == BtText(b))
  }

  lemma EntryAt(cs: seq<D.Candidate>, firmware: nat, i: nat)
    requires i < |cs|
    ensures var es := R.RomEntries(cs, firmware);
            && |es| == |cs| && es[i] in es
            && (es[i].Good? <==> RomFile(cs[i], firmware))
            && (es[i].Bad? <==> BrokenRom(cs[i], firmware))
            && (es[i].Good? ==>
                  es[i].item == C.Item(cs[i].data[31], 0, RomInfoOf(cs[i]), WifiText(cs[i]), BtText(cs[i])))
  {
    RomEntryExactly(cs[i], firmware);
    assert R.RomEntries(cs, firmware)[i] == R.RomEntry(cs[i], firmware);
  }

  lemma ClashExactly(cs: seq<D.Candidate>, firmware: nat, i: nat, j: nat)
    requires i < |cs| && j < |cs|
    ensures var es := R.RomEntries(cs, firmware);
            && |es| == |cs|
            && (C.Clash(es[i], es[j]) <==>
                  RomFile(cs[i], firmware) && RomFile(cs[j], firmware) && !Compatible(cs[i], cs[j]))
  {
    EntryAt(cs, firmware, i);
    EntryAt(cs, firmware, j);
  }

  ghost predicate AllCompatible(cs: seq<D.Candidate>, firmware: nat)
  {
    forall i, j :: 0 <= i < j < |cs| && RomFile(cs[i], firmware) && RomFile(cs[j], firmware) ==>
      Compatible(cs[i], cs[j])
  }

  ghost predicate NoneBroken(cs: seq<D.Candidate>, firmware: nat)
  {
    forall i :: 0 <= i < |cs| ==> !BrokenRom(cs[i], firmware)
  }

  lemma HarmonyExactly(cs: seq<D.Candidate>, firmware: nat)
    ensures C.Harmonious(R.RomEntries(cs, firmware)) <==> NoneBroken(cs, firmware) && AllCompatible(cs, firmware)
  {
    var es := R.RomEntries(cs, firmware);
    assert |es| == |cs|;
    forall i | 0 <= i < |cs| ensures es[i] in es && (es[i].Bad? <==> BrokenRom(cs[i], firmware)) {
      EntryAt(cs, firmware, i);
    }
    forall i, j | 0 <= i < j < |cs|
      ensures C.Clash(es[i], es[j]) <==>
              RomFile(cs[i], firmware) && RomFile(cs[j], firmware) && !Compatible(cs[i], cs[j])
    {
      ClashExactly(cs, firmware, i, j);
    }
  }

  /** The ROM search succeeds exactly on a readable directory without a broken image whose images are of distinct types
      and agree on the versions they carry. */
  lemma RomSearchExactly(d: D.Directory, firmware: nat)
    ensures R.SearchRoms(d, firmware).Found? <==>
            && d.openError == 0 && d.readError == 0 && d.closeError == 0
            && NoneBroken(d.entries, firmware) && AllCompatible(d.entries, firmware)
  {
    R.RomSearchSucceedsExactly(d, firmware);
    HarmonyExactly(d.entries, firmware);
  }

  /** Each accepted image is reported under its type, with the version texts it carries. */
  lemma FoundImagesExactly(d: D.Directory, firmware: nat, i: nat)
    requires R.SearchRoms(d, firmware).Found? && i < |d.entries| && RomFile(d.entries[i], firmware)
    ensures var f := R.SearchRoms(d, firmware).value;
            var c := d.entries[i];
            && R.RomShape(f) && Bit(f.seen, c.data[31]) && f.records[c.data[31]] == RomInfoOf(c)
            && (WifiText(c).Some? ==> f.hasWifi && CStr(f.wifiVersion) == WifiText(c).value)
            && (BtText(c).Some? ==> f.hasBt && CStr(f.btVersion) == BtText(c).value)
  {
    EntryAt(d.entries, firmware, i);
    R.MatchingRomsAreReported(d, firmware, R.RomEntries(d.entries, firmware)[i]);
  }

  /** A type is marked as seen only for an accepted image of that type. */
  lemma SeenImage(d: D.Directory, firmware: nat, t: nat) returns (i: nat)
    requires R.SearchRoms(d, firmware).Found? && t <= 4 && Bit(R.SearchRoms(d, firmware).value.seen, t)
    ensures i < |d.entries| && RomFile(d.entries[i], firmware) && d.entries[i].data[31] == t
  {
    var s := R.SummaryOf(d, firmware);
    R.SeenExactly(R.SearchRoms(d, firmware).value, s, t);
    i := D.KeyHolder(s, R.RomEntries(d.entries, firmware), t);
    EntryAt(d.entries, firmware, i);
  }

  /** What the search did not find is zero. */
  lemma UnseenIsZero(d: D.Directory, firmware: nat, t: nat)
    requires R.SearchRoms(d, firmware).Found? && t <= 4 && !Bit(R.SearchRoms(d, firmware).value.seen, t)
    ensures R.RomShape(R.SearchRoms(d, firmware).value)
    ensures R.SearchRoms(d, firmware).value.records[t] == R.RomInfo(0, Zeros(4), Zeros(256))
  {
    var s := R.SummaryOf(d, firmware);
    R.SeenExactly(R.SearchRoms(d, firmware).value, s, t);
  }

  ghost predicate WifiFrom(d: D.Directory, firmware: nat, version: seq<Byte>)
  {
    exists i :: 0 <= i < |d.entries| && RomFile(d.entries[i], firmware) && WifiText(d.entries[i]) == Some(version)
  }

  ghost predicate BtFrom(d: D.Directory, firmware: nat, version: seq<Byte>)
  {
    exists i :: 0 <= i < |d.entries| && RomFile(d.entries[i], firmware) && BtText(d.entries[i]) == Some(version)
  }

  /** A version is reported exactly when an accepted image carries it. */
  lemma VersionsExactly(d: D.Directory, firmware: nat, version: seq<Byte>)
    requires R.SearchRoms(d, firmware).Found?
    ensures var f := R.SearchRoms(d, firmware).value;
            && (f.hasWifi && CStr(f.wifiVersion) == version <==> WifiFrom(d, firmware, version))
            && (f.hasBt && CStr(f.btVersion) == version <==> BtFrom(d, firmware, version))
  {
    var f := R.SearchRoms(d, firmware).value;
    var s := R.SummaryOf(d, firmware);
    if f.hasWifi { var i := WifiHolder(d, firmware, s); }
    if f.hasBt { var i := BtHolder(d, firmware, s); }
    if i :| 0 <= i < |d.entries| && RomFile(d.entries[i], firmware) && WifiText(d.entries[i]) == Some(version) {
      FoundImagesExactly(d, firmware, i);
    }
    if i :| 0 <= i < |d.entries| && RomFile(d.entries[i], firmware) && BtText(d.entries[i]) == Some(version) {
      FoundImagesExactly(d, firmware, i);
    }
  }

  lemma WifiHolder(d: D.Directory, firmware: nat, s: C.Summary<R.RomInfo>) returns (i: nat)
    requires C.Summarizes(s, R.RomEntries(d.entries, firmware)) && s.first.Some?
    ensures i < |d.entries| && RomFile(d.entries[i], firmware) && WifiText(d.entries[i]) == s.first
  {
    var es := R.RomEntries(d.entries, firmware);
    var e :| e in es && e.Good? && s.first == e.item.first;
    i :| 0 <= i < |es| && es[i] == e;
    EntryAt(d.entries, firmware, i);
  }

  lemma BtHolder(d: D.Directory, firmware: nat, s: C.Summary<R.RomInfo>) returns (i: nat)
    requires C.Summarizes(s, R.RomEntries(d.entries, firmware)) && s.second.Some?
    ensures i < |d.entries| && RomFile(d.entries[i], firmware) && BtText(d.entries[i]) == s.second
  {
    var es := R.RomEntries(d.entries, firmware);
    var e :| e in es && e.Good? && s.second == e.item.second;
    i :| 0 <= i < |es| && es[i] == e;
    EntryAt(d.entries, firmware, i);
  }

  ghost function Images(cs: seq<D.Candidate>, firmware: nat): nat
  {
    if cs == [] then 0
    else Images(cs[..|cs| - 1], firmware) + if RomFile(cs[|cs| - 1], firmware) then 1 else 0
  }

  lemma VisitCounts(f: R.RomSet, c: D.Candidate, firmware: nat)
    requires R.RomShape(f) && R.VisitRom(f, c, firmware).Found?
    ensures R.VisitRom(f, c, firmware).value.count == f.count + if RomFile(c, firmware) then 1 else 0
  {
    if 32 <= |c.data| { TextsExactly(c); }
  }

  /** The count is the number of accepted images. */
  lemma {:induction false} ScanCounts(cs: seq<D.Candidate>, firmware: nat)
    requires R.ScanRoms(cs, firmware).Found?
    ensures R.ScanRoms(cs, firmware).value.count == Images(cs, firmware)
    decreases |cs|
  {
    if cs != [] {
      ScanCounts(cs[..|cs| - 1], firmware);
      VisitCounts(R.ScanRoms(cs[..|cs| - 1], firmware).value, cs[|cs| - 1], firmware);
    }
  }

  /** Which error an image stops the search with, after the system calls that open it succeeded. */
  lemma RomErrors(f: R.RomSet, c: D.Candidate, firmware: nat)
    requires R.RomShape(f) && RomNamed(c) && L.Opens(c)
    ensures var r := R.VisitRom(f, c, firmware);
            && (!L.Plain(c.name) ==> r == D.Stopped(-22))
            && (L.Plain(c.name) && |c.data| < 32 ==> r == D.Stopped(-90))
            && (L.Plain(c.name) && 32 <= |c.data| && c.data[23] == firmware % 256 && !GoodRomHeader(c) ==>
                  r == D.Stopped(-22))
            && (RomFile(c, firmware) && Bit(f.seen, c.data[31]) ==> r == D.Stopped(-17))
            && (RomFile(c, firmware) && r.Stopped? && !Bit(f.seen, c.data[31]) ==> r.errno == -22)
  {
    if 32 <= |c.data| { TextsExactly(c); }
  }

  /** Which error reading a Bluetooth version ends with: too short, too large, no memory, a failing call, a file that
      shrank or grew, or unpaired markers. */
  lemma BtErrors(c: D.Candidate)
    ensures var r := R.ReadBtVersion(c);
            && (c.statSize < 32 ==> r == D.Stopped(-90)) && (c.statSize > 1048576 ==> r == D.Stopped(-27))
            && (32 <= c.statSize <= 1048576 && c.noMemory ==> r == D.Stopped(-12))
            && (32 <= c.statSize <= 1048576 && !c.noMemory && c.seekError == 0 && c.bodyError == 0 ==>
                  && (|c.data| < c.statSize ==> r == D.Stopped(-90))
                  && (|c.data| > c.statSize && c.extraError == 0 ==> r == D.Stopped(-116))
                  && (|c.data| == c.statSize && c.extraError == 0 && r.Stopped? ==> r == D.Stopped(-74)))
  {
  }
}
