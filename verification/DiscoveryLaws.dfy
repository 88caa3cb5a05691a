/** Which files of a directory the patch search accepts, refuses and ignores, and what it then reports. */
module DiscoveryLaws {
  import opened Common
  import opened Bytes
  import P = PatchSet
  import B = BtVersion
  import C = Collection
  import D = FirmwareDiscovery

  /** A regular file on which no system call fails. */
  predicate Opens(c: D.Candidate)
  {
    c.openError == 0 && c.statError == 0 && c.regular && c.readError == 0 && c.closeError == 0
  }

  /** A basename of at most 255 bytes. */
  predicate Plain(name: seq<Byte>) { 1 <= |name| <= 255 && 47 !in name }

  predicate PatchNamed(c: D.Candidate) { B.Ascii("ROMv2_lm_patch") <= c.name }

  /** The halves of byte 24 are a count of at most ten and a sequence within it. */
  predicate GoodNumbers(c: D.Candidate)
    requires 28 <= |c.data|
  {
    1 <= c.data[24] % 16 <= c.data[24] / 16 <= 10
  }

  predicate PatchFile(c: D.Candidate, firmware: nat)
  {
    && PatchNamed(c) && Opens(c) && Plain(c.name)
    && 28 <= |c.data| && c.data[23] == firmware % 256 && GoodNumbers(c)
  }

  /** A file that makes the search fail, whatever else the directory holds. */
  predicate BrokenPatch(c: D.Candidate, firmware: nat)
  {
    && PatchNamed(c)
    && (!Opens(c) || !Plain(c.name) || |c.data| < 28 || (c.data[23] == firmware % 256 && !GoodNumbers(c)))
  }

  function PatchInfo(c: D.Candidate): P.Info
    requires 28 <= |c.data| && |c.name| <= 255
  {
    P.Info(c.data[24] % 16, [0] + c.data[25..28], c.name + Zeros(256 - |c.name|))
  }

  lemma PatchEntryExactly(c: D.Candidate, firmware: nat)
    ensures var e := D.PatchEntry(c, firmware);
            && (e.Good? <==> PatchFile(c, firmware))
            && (e.Bad? <==> BrokenPatch(c, firmware))
            && (e.Good? ==>
                  && e.item.key == c.data[24] % 16 - 1 && e.item.group == c.data[24] / 16
                  && e.item.content == (PatchInfo(c), c.data[..15] + [0])
                  && e.item.first.None? && e.item.second.None?)
  {
    if 28 <= |c.data| {
      var header := c.data[..28];
      assert header[25..28] == c.data[25..28] && header[..15] == c.data[..15];
    }
  }

  /** The accepted files agree on `count` and hold each sequence from 1 to `count` once. */
  ghost predicate OneSet(cs: seq<D.Candidate>, firmware: nat, count: nat)
  {
    && 1 <= count <= 10
    && (forall i :: 0 <= i < |cs| && PatchFile(cs[i], firmware) ==> cs[i].data[24] / 16 == count)
    && (forall i, j :: 0 <= i < j < |cs| && PatchFile(cs[i], firmware) && PatchFile(cs[j], firmware) ==>
          cs[i].data[24] % 16 != cs[j].data[24] % 16)
    && (forall s :: 1 <= s <= count ==> HasSequence(cs, firmware, s))
  }

  ghost predicate HasSequence(cs: seq<D.Candidate>, firmware: nat, s: nat)
  {
    exists i :: 0 <= i < |cs| && PatchFile(cs[i], firmware) && cs[i].data[24] % 16 == s
  }

  lemma EntriesExactly(cs: seq<D.Candidate>, firmware: nat)
    ensures var es := D.PatchEntries(cs, firmware);
            && |es| == |cs|
            && (forall i :: 0 <= i < |cs| ==> es[i] == D.PatchEntry(cs[i], firmware))
            && (forall i :: 0 <= i < |cs| ==> (es[i].Good? <==> PatchFile(cs[i], firmware)))
            && (forall i :: 0 <= i < |cs| ==> (es[i].Bad? <==> BrokenPatch(cs[i], firmware)))
            && (forall i :: 0 <= i < |cs| && PatchFile(cs[i], firmware) ==>
                  es[i].item.key == cs[i].data[24] % 16 - 1 && es[i].item.group == cs[i].data[24] / 16
                  && es[i].item.first.None? && es[i].item.second.None?)
  {
    forall i | 0 <= i < |cs| { PatchEntryExactly(cs[i], firmware); }
  }

  lemma NoneIsBad(cs: seq<D.Candidate>, firmware: nat)
    ensures C.Bad !in D.PatchEntries(cs, firmware) <==> forall i :: 0 <= i < |cs| ==> !BrokenPatch(cs[i], firmware)
  {
    EntriesExactly(cs, firmware);
    var es := D.PatchEntries(cs, firmware);
    if C.Bad !in es {
      forall i | 0 <= i < |cs| ensures !BrokenPatch(cs[i], firmware) { assert es[i] in es; }
    }
  }

  lemma KeysAreSequences(cs: seq<D.Candidate>, firmware: nat, k: nat)
    ensures D.HasKey(D.PatchEntries(cs, firmware), k) <==> HasSequence(cs, firmware, k + 1)
  {
    EntriesExactly(cs, firmware);
    var es := D.PatchEntries(cs, firmware);
    if HasSequence(cs, firmware, k + 1) {
      var i :| 0 <= i < |cs| && PatchFile(cs[i], firmware) && cs[i].data[24] % 16 == k + 1;
      assert es[i] in es;
    }
  }

  lemma SetsAgree(cs: seq<D.Candidate>, firmware: nat, count: nat)
    requires forall i :: 0 <= i < |cs| ==> !BrokenPatch(cs[i], firmware)
    ensures var es := D.PatchEntries(cs, firmware);
            C.Harmonious(es) && D.CompletePatches(es, count) <==> OneSet(cs, firmware, count)
  {
    NoneIsBad(cs, firmware);
    EntriesExactly(cs, firmware);
    var es := D.PatchEntries(cs, firmware);
    if C.Harmonious(es) && D.CompletePatches(es, count) {
      forall i | 0 <= i < |cs| && PatchFile(cs[i], firmware) ensures cs[i].data[24] / 16 == count {
        assert es[i] in es;
      }
      forall i, j | 0 <= i < j < |cs| && PatchFile(cs[i], firmware) && PatchFile(cs[j], firmware)
        ensures cs[i].data[24] % 16 != cs[j].data[24] % 16
      {
        assert !C.Clash(es[i], es[j]);
      }
      forall s | 1 <= s <= count ensures HasSequence(cs, firmware, s) {
        KeysAreSequences(cs, firmware, s - 1);
        assert D.HasKey(es, s - 1);
      }
    }
    if OneSet(cs, firmware, count) {
      forall k | 0 <= k < 10 ensures D.HasKey(es, k) <==> k < count {
        KeysAreSequences(cs, firmware, k);
        if k < count { assert HasSequence(cs, firmware, k + 1); }
      }
      forall i, j | 0 <= i < j < |es| ensures !C.Clash(es[i], es[j]) { }
    }
  }

  /** The patch search succeeds exactly on a readable directory without a broken patch file whose accepted files are
      one complete set. */
  lemma PatchSearchExactly(d: D.Directory, firmware: nat)
    ensures D.SearchFirmware(d, firmware).Found? <==>
            && d.openError == 0 && d.readError == 0 && d.closeError == 0
            && (forall i :: 0 <= i < |d.entries| ==> !BrokenPatch(d.entries[i], firmware))
            && exists count: nat :: OneSet(d.entries, firmware, count)
  {
    var es := D.PatchEntries(d.entries, firmware);
    D.PatchSearchSucceedsExactly(d, firmware);
    NoneIsBad(d.entries, firmware);
    if forall i :: 0 <= i < |d.entries| ==> !BrokenPatch(d.entries[i], firmware) {
      if C.Harmonious(es) && D.FormsSet(es) {
        var count: nat :| D.CompletePatches(es, count);
        SetsAgree(d.entries, firmware, count);
      }
      if count: nat :| OneSet(d.entries, firmware, count) { SetsAgree(d.entries, firmware, count); }
    }
  }

  /** Each accepted file fills the slot of its sequence: address, name and build version come from that file. */
  lemma FoundSlotsExactly(d: D.Directory, firmware: nat, f: D.Firmware, i: nat)
    requires D.SearchFirmware(d, firmware) == D.Found(f) && i < |d.entries| && PatchFile(d.entries[i], firmware)
    ensures D.FirmwareShape(f) && f.patches.count == d.entries[i].data[24] / 16
    ensures var s := d.entries[i].data[24] % 16;
            f.patches.records[s - 1] == PatchInfo(d.entries[i]) && f.versions[s - 1] == d.entries[i].data[..15] + [0]
  {
    EntriesExactly(d.entries, firmware);
    var es := D.PatchEntries(d.entries, firmware);
    assert es[i] in es;
    D.MatchingPatchesAreFound(d, firmware, f, es[i]);
    PatchEntryExactly(d.entries[i], firmware);
  }

  lemma SlotFile(d: D.Directory, firmware: nat, f: D.Firmware, s: nat) returns (i: nat)
    requires D.SearchFirmware(d, firmware) == D.Found(f) && 1 <= s <= f.patches.count
    ensures f.patches.count <= 10 && i < |d.entries| && PatchFile(d.entries[i], firmware)
    ensures d.entries[i].data[24] % 16 == s
  {
    var c := D.FoundPatchesAreTheFiles(d, firmware, f, s);
    i :| 0 <= i < |d.entries| && d.entries[i] == c;
    IsPatchFile(c, firmware, f.patches.count, s, f.patches.records[s - 1], f.versions[s - 1]);
  }

  lemma IsPatchFile(c: D.Candidate, firmware: nat, count: nat, s: nat, info: P.Info, version: seq<Byte>)
    requires D.IsPatch(c, firmware, count, s, info, version) && 1 <= s <= count <= 10
    ensures PatchFile(c, firmware) && c.data[24] % 16 == s
  {
  }

  lemma CompleteErrors(patches: P.Set)
    ensures patches.count == 0 ==> P.Complete(patches) == -2
    ensures 1 <= patches.count <= 10 && P.Complete(patches) != 0 ==> P.Complete(patches) == -61
  {
  }

  /** Files that fit together but are not a complete set are reported as none at all, or as an incomplete set. */
  lemma IncompleteSets(d: D.Directory, firmware: nat)
    requires d.openError == 0 && d.readError == 0 && d.closeError == 0
    requires C.Harmonious(D.PatchEntries(d.entries, firmware)) && D.SearchFirmware(d, firmware).Stopped?
    ensures D.SearchFirmware(d, firmware) ==
            D.Stopped(if SomePatch(d.entries, firmware) then -61 else -2)
  {
    var f := ScannedFirmware(d.entries, firmware);
    assert D.SearchFirmware(d, firmware) == D.Stopped(P.Complete(f.patches));
    CompleteErrors(f.patches);
  }

  lemma ScannedFirmware(cs: seq<D.Candidate>, firmware: nat) returns (f: D.Firmware)
    requires C.Harmonious(D.PatchEntries(cs, firmware))
    ensures D.ScanPatches(cs, firmware) == D.Found(f) && f.patches.count <= 10
    ensures f.patches.count != 0 <==> SomePatch(cs, firmware)
  {
    var es := D.PatchEntries(cs, firmware);
    D.ScanPatchesCollects(cs, firmware);
    C.CollectExactly(es);
    var s := C.Collect(es).value;
    GroupExactly(cs, firmware, s);
    f := D.FirmwareOf(s);
  }

  ghost predicate SomePatch(cs: seq<D.Candidate>, firmware: nat)
  {
    exists i :: 0 <= i < |cs| && PatchFile(cs[i], firmware)
  }

  lemma GroupExactly(cs: seq<D.Candidate>, firmware: nat, s: C.Summary<(P.Info, seq<Byte>)>)
    requires C.Summarizes(s, D.PatchEntries(cs, firmware))
    ensures s.group.Some? <==> SomePatch(cs, firmware)
  {
    var es := D.PatchEntries(cs, firmware);
    EntriesExactly(cs, firmware);
    if i :| 0 <= i < |cs| && PatchFile(cs[i], firmware) { assert es[i] in es; }
    if s.group.Some? {
      var e :| e in es && e.Good? && s.group == Some(e.item.group);
      var i :| 0 <= i < |es| && es[i] == e;
      assert PatchFile(cs[i], firmware);
    }
  }

  /** Which error a file stops the search with. */
  lemma PatchErrors(f: D.Firmware, c: D.Candidate, firmware: nat)
    requires D.FirmwareShape(f) && PatchNamed(c)
    ensures var r := D.VisitPatch(f, c, firmware);
            && (c.openError != 0 ==> r == D.Stopped(c.openError))
            && (c.openError == 0 && c.statError != 0 ==> r == D.Stopped(c.statError))
            && (c.openError == 0 && c.statError == 0 && !c.regular ==> r == D.Stopped(-22))
            && (Opens(c.(readError := 0, closeError := 0)) && c.readError != 0 ==> r == D.Stopped(c.readError))
            && (Opens(c.(closeError := 0)) && |c.data| < 28 ==> r == D.Stopped(-90))
            && (Opens(c) && 28 <= |c.data| && BrokenPatch(c, firmware) ==> r == D.Stopped(-22))
            && (PatchFile(c, firmware) && f.patches.count !in {0, c.data[24] / 16} ==> r == D.Stopped(-22))
            && (PatchFile(c, firmware) && f.patches.count in {0, c.data[24] / 16} ==>
                  (r.Stopped? <==> Bit(f.patches.seen, c.data[24] % 16 - 1)) && (r.Stopped? ==> r.errno == -17))
  {
    if PatchFile(c, firmware) {
      var field := P.NameField(c.name);
      assert field[|c.name|] == 0;
    }
  }
}
