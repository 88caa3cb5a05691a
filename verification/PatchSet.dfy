/** Patch headers and the set that collects them by sequence, as in patch.c. */
module PatchSet {
  import opened Bytes
  import opened Errno

  const MAX_PATCHES: nat := 10
  const HEADER_BYTES: nat := 28

  datatype Info = Info(sequence: nat, address: seq<Byte>, name: seq<Byte>)

  datatype File = File(count: nat, info: Info)

  datatype Set = Set(count: nat, seen: nat, records: seq<Info>)

  function NoInfo(): Info { Info(0, Zeros(4), Zeros(NAME_SIZE)) }

  function Empty(): Set { Set(0, 0, seq(MAX_PATCHES, _ => NoInfo())) }

  /** A basename fits the 256-byte field with its NUL and is not a path. */
  predicate GoodBasename(name: seq<Byte>) { 0 < |name| < NAME_SIZE && SLASH !in name }

  function NameField(name: seq<Byte>): (r: seq<Byte>)
    requires |name| <= NAME_SIZE
    ensures |r| == NAME_SIZE
  {
    name + Zeros(NAME_SIZE - |name|)
  }

  predicate GoodFile(f: File)
  {
    && 1 <= f.info.sequence <= f.count <= MAX_PATCHES
    && |f.info.address| == 4 && |f.info.name| == NAME_SIZE
  }

  datatype Parsed = Parsed(file: File) | Skipped | Invalid(errno: int)

  /** wmt_patch_parse. */
  function Parse(header: seq<Byte>, basename: seq<Byte>, firmware: nat): (r: Parsed)
    ensures r.Parsed? ==>
              && GoodFile(r.file) && GoodBasename(basename) && r.file.info.name == NameField(basename)
              && |header| >= HEADER_BYTES && header[23] == firmware % 256
              && header[24] == 16 * r.file.count + r.file.info.sequence
              && r.file.info.address == [0] + header[25..28]
    ensures r.Skipped? ==> |header| >= HEADER_BYTES && header[23] != firmware % 256
    ensures r.Invalid? ==> -4095 <= r.errno < 0
  {
    if |header| < HEADER_BYTES then Invalid(-EMSGSIZE)
    else if !GoodBasename(basename) then Invalid(-EINVAL)
    else if header[23] != firmware % 256 then Skipped
    else
      var count, sequence := header[24] / 16, header[24] % 16;
      if count == 0 || count > MAX_PATCHES || sequence == 0 || sequence > count then Invalid(-EINVAL)
      else Parsed(File(count, Info(sequence, [0] + header[25..28], NameField(basename))))
  }

  /** A header and name are accepted exactly as the file they describe: the firmware's low byte, count and sequence
      in the two halves of byte 24, three address bytes after a zero, the name in its zero-padded field. */
  lemma ParseExactly(header: seq<Byte>, basename: seq<Byte>, firmware: nat, file: File)
    ensures Parse(header, basename, firmware) == Parsed(file) <==>
            && |header| >= HEADER_BYTES && GoodBasename(basename) && GoodFile(file)
            && header[23] == firmware % 256 && header[24] == 16 * file.count + file.info.sequence
            && file.info.address == [0] + header[25..28] && file.info.name == NameField(basename)
  {
    if |header| >= HEADER_BYTES && GoodFile(file) && header[24] == 16 * file.count + file.info.sequence {
      assert header[24] / 16 == file.count && header[24] % 16 == file.info.sequence;
    }
  }

  /** wmt_patch_build_version. */
  function BuildVersion(header: seq<Byte>): (r: seq<Byte>)
    requires |header| >= 16
    ensures |r| == 16
  {
    header[..15] + [0]
  }

  datatype Added = Added(patches: Set) | Rejected(errno: int)

  predicate Shape(s: Set) { |s.records| == MAX_PATCHES }

  /** wmt_patch_set_add. */
  function Add(s: Set, f: File): Added
    requires Shape(s)
  {
    if f.count == 0 || f.count > MAX_PATCHES || f.info.sequence == 0 || f.info.sequence > f.count || 0 !in f.info.name
    then Rejected(-EINVAL)
    else if s.count != 0 && s.count != f.count then Rejected(-EINVAL)
    else if Bit(s.seen, f.info.sequence - 1) then Rejected(-EEXIST)
    else
      Added(Set(f.count, SetBit(s.seen, f.info.sequence - 1), s.records[f.info.sequence - 1 := f.info]))
  }

  /** wmt_patch_set_complete; 0 when every sequence from 1 to count is there. */
  function Complete(s: Set): Status
  {
    if s.count > MAX_PATCHES then -EINVAL
    else if s.count == 0 then -ENOENT
    else if s.seen == Pow2(s.count) - 1 then 0 else -ENODATA
  }

  /** With the mask of `flags`, completeness means exactly the first `count` sequences are present. */
  lemma CompleteExactly(s: Set, flags: seq<bool>)
    requires |flags| == MAX_PATCHES && s.seen == MaskOf(flags) && 0 < s.count <= MAX_PATCHES
    ensures Complete(s) == 0 <==> forall i :: 0 <= i < MAX_PATCHES ==> flags[i] == (i < s.count)
  {
    FullMask(flags, s.count);
  }

  /** The set as the code updates it in place. */
  class PatchTable {
    var count: nat
    var seen: nat
    const records: array<Info>

    ghost predicate Valid()
      reads this
    {
      records.Length == MAX_PATCHES
    }

    ghost function View(): (s: Set)
      requires Valid()
      reads this, records
      ensures Shape(s)
    {
      Set(count, seen, records[..])
    }

    constructor ()
      ensures Valid() && fresh(records) && View() == Empty()
    {
      count, seen := 0, 0;
      records := new Info[MAX_PATCHES](_ => NoInfo());
    }

    method AddFile(f: File) returns (rc: int)
      requires Valid()
      modifies this, records
      ensures Valid()
      ensures match Add(old(View()), f)
              case Added(s) => rc == 0 && View() == s
              case Rejected(errno) => rc == errno && View() == old(View())
    {
      if f.count == 0 || f.count > MAX_PATCHES || f.info.sequence == 0 || f.info.sequence > f.count
          || 0 !in f.info.name {
        return -EINVAL;
      }
      if count != 0 && count != f.count { return -EINVAL; }
      var slot := f.info.sequence - 1;
      if Bit(seen, slot) { return -EEXIST; }
      records[slot] := f.info;
      count := f.count;
      seen := SetBit(seen, slot);
      return 0;
    }

    method CheckComplete() returns (rc: int)
      requires Valid()
      ensures rc == Complete(View())
    {
      if count > MAX_PATCHES { return -EINVAL; }
      if count == 0 { return -ENOENT; }
      return if seen == Pow2(count) - 1 then 0 else -ENODATA;
    }
  }
}
