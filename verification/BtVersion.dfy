/**
 Extraction of the Bluetooth version text from a firmware file: two ordered markers, a text search that stops at the
 first NUL, and a bounded copy into a 92-byte buffer.
 */
module BtVersion {
  import opened Common
  import opened Bytes
  import opened Errno

  const VERSION_SIZE: nat := 92
  const LF: Byte := 10

  function Ascii(s: string): (r: seq<Byte>)
    requires forall i :: 0 <= i < |s| ==> s[i] < 128 as char
    ensures |r| == |s| && forall i :: 0 <= i < |s| ==> r[i] == s[i] as int
  {
    seq(|s|, i requires 0 <= i < |s| => s[i] as int)
  }

  const START_MARKER: seq<Byte> := Ascii("BABEFACEBABEFACE")
  const END_MARKER: seq<Byte> := Ascii("DEADBEEFDEADBEEF")
  const NEPTUNE: seq<Byte> := Ascii("t-neptune")
  const DEBUG_TEXT: seq<Byte> := Ascii("= debug")

  predicate MatchAt(data: seq<Byte>, i: nat, text: seq<Byte>)
  {
    i + |text| <= |data| && data[i..i + |text|] == text
  }

  /** A match is byte for byte. */
  lemma MatchMeans(data: seq<Byte>, i: nat, text: seq<Byte>)
    ensures MatchAt(data, i, text) <==> i + |text| <= |data| && forall j :: 0 <= j < |text| ==> data[i + j] == text[j]
  {
    if i + |text| <= |data| {
      var window := data[i..i + |text|];
      assert forall j :: 0 <= j < |text| ==> window[j] == data[i + j];
    }
  }

  /** First occurrence at or after `i`. */
  function FindFrom(data: seq<Byte>, text: seq<Byte>, i: nat): (r: Option<nat>)
    requires i <= |data|
    ensures r.Some? ==> i <= r.value && MatchAt(data, r.value, text)
    ensures r.Some? ==> forall k: nat :: i <= k < r.value ==> !MatchAt(data, k, text)
    ensures r.None? ==> forall k: nat :: i <= k ==> !MatchAt(data, k, text)
    decreases |data| - i
  {
    if i + |text| > |data| then None
    else if MatchAt(data, i, text) then Some(i)
    else if i == |data| then None
    else FindFrom(data, text, i + 1)
  }

  datatype Version = Malformed | Absent | Present(buffer: seq<Byte>)

  /** The marker interval: None when a marker is missing. */
  function Interval(data: seq<Byte>): Option<(nat, nat)>
  {
    var start := FindFrom(data, START_MARKER, 0);
    if start.None? then None
    else
      var end := FindFrom(data, END_MARKER, start.value + |START_MARKER|);
      if end.None? then None else Some((start.value, end.value))
  }

  /** Text chosen for the version, before bounding. */
  function Source(data: seq<Byte>, start: nat, end: nat): Option<seq<Byte>>
    requires start <= end <= |data| && 14 <= |data|
  {
    var searched := CStr(data[start..end]);
    var text := FindFrom(searched, NEPTUNE, 0);
    if text.Some? then Some(data[start + text.value..end])
    else if FindFrom(searched, DEBUG_TEXT, 0).Some? then Some(data[..14])
    else None
  }

  function Bounded(source: seq<Byte>): (r: seq<Byte>)
    ensures |r| <= VERSION_SIZE - 1 && r <= source
  {
    if |source| >= VERSION_SIZE then source[..VERSION_SIZE - 1] else source
  }

  /** Position of the first LF of a C string, if any. */
  function Newline(buffer: seq<Byte>): (r: Option<nat>)
    ensures r.Some? ==> r.value < |CStr(buffer)| && buffer[r.value] == LF && LF !in CStr(buffer)[..r.value]
    ensures r.None? ==> LF !in CStr(buffer)
  {
    var hit := FindFrom(CStr(buffer), [LF], 0);
    assert forall k: nat :: k < |CStr(buffer)| ==> (CStr(buffer)[k] == LF <==> MatchAt(CStr(buffer), k, [LF])) by {
      forall k: nat | k < |CStr(buffer)| ensures CStr(buffer)[k] == LF <==> MatchAt(CStr(buffer), k, [LF]) {
        assert CStr(buffer)[k..k + 1] == [CStr(buffer)[k]];
      }
    }
    hit
  }

  /** memcpy, terminate, cut at the newline; the buffer starts zeroed. */
  function Finish(source: seq<Byte>): (r: seq<Byte>)
    ensures |r| == VERSION_SIZE
  {
    var text := Bounded(source);
    var buffer := text + Zeros(VERSION_SIZE - |text|);
    var newline := Newline(buffer);
    if newline.Some? then buffer[newline.value := 0] else buffer
  }

  /** bt_version. */
  function Extract(data: seq<Byte>): Version
    requires 32 <= |data|
  {
    var start := FindFrom(data, START_MARKER, 0);
    if start.None? then (if FindFrom(data, END_MARKER, 0).Some? then Malformed else Absent)
    else
      var interval := Interval(data);
      if interval.None? then Malformed
      else
        var source := Source(data, interval.value.0, interval.value.1);
        if source.None? then Absent else Present(Finish(source.value))
  }

  // ---------------------------------------------------------------- what the result means

  ghost predicate Occurs(data: seq<Byte>, text: seq<Byte>, from: nat)
  {
    exists k: nat :: from <= k && MatchAt(data, k, text)
  }

  /** `k` is where `text` first occurs at or after `from`. */
  ghost predicate FirstAt(data: seq<Byte>, text: seq<Byte>, from: nat, k: nat)
  {
    from <= k && MatchAt(data, k, text) && forall j: nat :: from <= j < k ==> !MatchAt(data, j, text)
  }

  /** `text` is `source` up to its first NUL, its first LF or 91 bytes, whichever comes first. */
  ghost predicate CutsTo(source: seq<Byte>, text: seq<Byte>)
  {
    && text <= source && |text| <= 91
    && 0 !in text && 10 !in text
    && (|text| == |source| || |text| == 91 || source[|text|] == 0 || source[|text|] == 10)
  }

  /** The buffer is a NUL-terminated, newline-free string of at most 91 bytes: the source cut at NUL, LF or the
      bound. */
  lemma FinishCuts(source: seq<Byte>)
    ensures var b := Finish(source); CutsTo(source, CStr(b)) && |CStr(b)| < |b|
  {
    var text := Bounded(source);
    var buffer := text + Zeros(VERSION_SIZE - |text|);
    var whole := CStr(buffer);
    var newline := Newline(buffer);
    assert buffer[|text|] == 0;
    assert |whole| <= |text|;
    assert whole == text[..|whole|];
    if newline.Some? {
      var b := buffer[newline.value := 0];
      assert forall i :: 0 <= i < newline.value ==> b[i] == whole[i];
      CStrUnique(b, newline.value);
      assert b[..newline.value] == whole[..newline.value];
      assert source[newline.value] == LF;
    }
  }

  lemma FindIsFirst(data: seq<Byte>, text: seq<Byte>, from: nat)
    requires from <= |data|
    ensures var r := FindFrom(data, text, from);
            && (r.Some? <==> Occurs(data, text, from))
            && forall k: nat :: FirstAt(data, text, from, k) <==> r == Some(k)
  {
  }

  /** EBADMSG exactly for unpaired markers: an end without a start, or a start without a later end. */
  lemma MalformedExactly(data: seq<Byte>)
    requires 32 <= |data|
    ensures Extract(data).Malformed? <==>
            || (!Occurs(data, START_MARKER, 0) && Occurs(data, END_MARKER, 0))
            || exists s: nat :: FirstAt(data, START_MARKER, 0, s) && !Occurs(data, END_MARKER, s + 16)
  {
    FindIsFirst(data, START_MARKER, 0);
    FindIsFirst(data, END_MARKER, 0);
    var start := FindFrom(data, START_MARKER, 0);
    if start.Some? {
      FindIsFirst(data, END_MARKER, start.value + 16);
      assert FirstAt(data, START_MARKER, 0, start.value);
    }
  }

  lemma IntervalExactly(data: seq<Byte>, s: nat, e: nat)
    requires FirstAt(data, START_MARKER, 0, s) && FirstAt(data, END_MARKER, s + 16, e)
    ensures e <= |data| && Interval(data) == Some((s, e))
  {
    FindIsFirst(data, START_MARKER, 0);
    FindIsFirst(data, END_MARKER, s + 16);
  }

  lemma SourceExactly(data: seq<Byte>, s: nat, e: nat)
    requires s <= e <= |data| && 14 <= |data|
    ensures var searched := CStr(data[s..e]);
            && (Source(data, s, e).Some? <==> Occurs(searched, NEPTUNE, 0) || Occurs(searched, DEBUG_TEXT, 0))
            && (forall k: nat :: FirstAt(searched, NEPTUNE, 0, k) ==> Source(data, s, e) == Some(data[s + k..e]))
            && (!Occurs(searched, NEPTUNE, 0) && Occurs(searched, DEBUG_TEXT, 0) ==>
                  Source(data, s, e) == Some(data[..14]))
  {
    var searched := CStr(data[s..e]);
    FindIsFirst(searched, NEPTUNE, 0);
    FindIsFirst(searched, DEBUG_TEXT, 0);
  }

  /** Between the first start marker and the first later end marker, a version is found exactly when the bytes before
      the first NUL hold "t-neptune" or "= debug"; the former wins and supplies the text up to the end marker, the
      latter stands for the first fourteen bytes of the file. */
  lemma VersionExactly(data: seq<Byte>, s: nat, e: nat)
    requires 32 <= |data| && FirstAt(data, START_MARKER, 0, s) && FirstAt(data, END_MARKER, s + 16, e)
    ensures e <= |data|
    ensures var searched := CStr(data[s..e]);
            && (Extract(data).Present? <==> Occurs(searched, NEPTUNE, 0) || Occurs(searched, DEBUG_TEXT, 0))
            && (forall k: nat :: FirstAt(searched, NEPTUNE, 0, k) ==> Extract(data) == Present(Finish(data[s + k..e])))
            && (!Occurs(searched, NEPTUNE, 0) && Occurs(searched, DEBUG_TEXT, 0) ==>
                  Extract(data) == Present(Finish(data[..14])))
  {
    IntervalExactly(data, s, e);
    SourceExactly(data, s, e);
    FindIsFirst(data, START_MARKER, 0);
  }

  /** The first start marker and the first end marker after it. */
  ghost predicate Paired(data: seq<Byte>, s: nat, e: nat)
  {
    FirstAt(data, START_MARKER, 0, s) && FirstAt(data, END_MARKER, s + 16, e)
  }

  /** The bytes before the first NUL of the marker interval hold one of the two texts. */
  ghost predicate Recognized(data: seq<Byte>, s: nat, e: nat)
    requires s <= e <= |data|
  {
    Occurs(CStr(data[s..e]), NEPTUNE, 0) || Occurs(CStr(data[s..e]), DEBUG_TEXT, 0)
  }

  lemma PairedInside(data: seq<Byte>, s: nat, e: nat)
    requires Paired(data, s, e)
    ensures s <= e <= |data|
  {
  }

  /** Every outcome for every file: a version needs both markers and a recognized text; no version and no error
      means neither marker, or a pair without such a text. */
  lemma OutcomeExactly(data: seq<Byte>)
    requires 32 <= |data|
    ensures Extract(data).Present? <==>
            exists s: nat, e: nat :: Paired(data, s, e) && s <= e <= |data| && Recognized(data, s, e)
    ensures Extract(data).Absent? <==>
            || (!Occurs(data, START_MARKER, 0) && !Occurs(data, END_MARKER, 0))
            || exists s: nat, e: nat :: Paired(data, s, e) && s <= e <= |data| && !Recognized(data, s, e)
  {
    FindIsFirst(data, START_MARKER, 0);
    FindIsFirst(data, END_MARKER, 0);
    forall s: nat, e: nat | Paired(data, s, e)
      ensures s <= e <= |data| && (Extract(data).Present? <==> Recognized(data, s, e)) && !Extract(data).Malformed?
    {
      PairedInside(data, s, e);
      VersionExactly(data, s, e);
      IntervalExactly(data, s, e);
    }
    var start := FindFrom(data, START_MARKER, 0);
    if start.Some? {
      FindIsFirst(data, END_MARKER, start.value + 16);
      var end := FindFrom(data, END_MARKER, start.value + 16);
      if end.Some? { assert Paired(data, start.value, end.value); }
    }
  }

  // ---------------------------------------------------------------- the code

  lemma MatchInWindow(data: seq<Byte>, text: seq<Byte>, from: nat, k: nat)
    requires from <= |data|
    ensures MatchAt(data[from..], k, text) <==> MatchAt(data, from + k, text)
  {
    if from + k + |text| <= |data| { SliceOfSlice(data, from, |data|, k, k + |text|); }
  }

  function Shifted(hit: Option<nat>, offset: nat): Option<nat> { if hit.Some? then Some(offset + hit.value) else None }

  /** Searching a window of the file is searching the file from there. */
  lemma {:induction false} FindInWindow(data: seq<Byte>, text: seq<Byte>, from: nat, k: nat)
    requires from + k <= |data|
    ensures FindFrom(data, text, from + k) == Shifted(FindFrom(data[from..], text, k), from)
    decreases |data| - k
  {
    MatchInWindow(data, text, from, k);
    if from + k < |data| { FindInWindow(data, text, from, k + 1); }
  }

  /** find_bytes over `size` bytes at `from`; the result is an absolute index. */
  method FindBytes(data: array<Byte>, from: nat, size: nat, text: seq<Byte>) returns (r: Option<nat>)
    requires from + size <= data.Length
    ensures r == Shifted(FindFrom(data[..][from..from + size], text, 0), from)
  {
    ghost var window := data[..][from..from + size];
    if size < |text| { return None; }
    var i := 0;
    while i <= size - |text|
      invariant 0 <= i <= size - |text| + 1
      invariant i <= size ==> FindFrom(window, text, 0) == FindFrom(window, text, i)
      invariant i > size ==> FindFrom(window, text, 0).None?
    {
      SliceOfSlice(data[..], from, from + size, i, i + |text|);
      if data[..][from + i..from + i + |text|] == text { return Some(from + i); }
      i := i + 1;
    }
    return None;
  }

  /** memchr for NUL: how many bytes of the window come before it. */
  method SpanBeforeNul(data: array<Byte>, from: nat, to: nat) returns (n: nat)
    requires from <= to <= data.Length
    ensures n == |CStr(data[..][from..to])|
  {
    ghost var window := data[..][from..to];
    n := 0;
    while from + n < to && data[from + n] != 0
      invariant from + n <= to
      invariant forall k :: 0 <= k < n ==> window[k] != 0
    {
      n := n + 1;
    }
    if from + n < to { CStrUnique(window, n); } else { CStrWhole(window); }
  }

  lemma {:induction false} CStrWhole(buffer: seq<Byte>)
    requires 0 !in buffer
    ensures CStr(buffer) == buffer
    decreases |buffer|
  {
    if buffer != [] { CStrWhole(buffer[1..]); }
  }

  /** Copy the bounded text into the zeroed buffer, terminate it and cut it at its first newline. */
  method FillVersion(version: array<Byte>, source: seq<Byte>)
    requires version.Length == VERSION_SIZE && version[..] == Zeros(VERSION_SIZE)
    modifies version
    ensures version[..] == Finish(source)
  {
    CopyBounded(version, source);
    var newline := Newline(version[..]);
    if newline.Some? { version[newline.value] := 0; }
  }

  method CopyBounded(version: array<Byte>, source: seq<Byte>)
    requires version.Length == VERSION_SIZE && version[..] == Zeros(VERSION_SIZE)
    modifies version
    ensures version[..] == Bounded(source) + Zeros(VERSION_SIZE - |Bounded(source)|)
  {
    var length := if |source| >= VERSION_SIZE then VERSION_SIZE - 1 else |source|;
    var i := 0;
    while i < length
      invariant 0 <= i <= length
      invariant forall k :: 0 <= k < i ==> version[k] == source[k]
      invariant forall k :: i <= k < VERSION_SIZE ==> version[k] == 0
    {
      version[i] := source[i];
      i := i + 1;
    }
    version[length] := 0;
  }

  /** bt_version. */
  method ReadVersion(data: array<Byte>, version: array<Byte>) returns (rc: int, present: bool)
    requires 32 <= data.Length && version.Length == VERSION_SIZE && version[..] == Zeros(VERSION_SIZE)
             && data != version
    modifies version
    ensures rc == if Extract(old(data[..])).Malformed? then -EBADMSG else 0
    ensures present <==> Extract(old(data[..])).Present?
    ensures version[..] == if present then Extract(old(data[..])).buffer else old(version[..])
  {
    var started, interval := FindInterval(data);
    if !started {
      var lone := FindTail(data, 0, END_MARKER);
      return if lone.Some? then -EBADMSG else 0, false;
    }
    if interval.None? { return -EBADMSG, false; }
    var source := ChooseSource(data, interval.value.0, interval.value.1);
    if source.None? { return 0, false; }
    FillVersion(version, source.value);
    return 0, true;
  }

  /** The first start marker and the first end marker after it. */
  method FindInterval(data: array<Byte>) returns (started: bool, r: Option<(nat, nat)>)
    ensures started <==> FindFrom(data[..], START_MARKER, 0).Some?
    ensures r == Interval(data[..]) && (r.Some? ==> r.value.0 <= r.value.1 <= data.Length)
  {
    var start := FindTail(data, 0, START_MARKER);
    if start.None? { return false, None; }
    var end := FindTail(data, start.value + |START_MARKER|, END_MARKER);
    return true, if end.None? then None else Some((start.value, end.value));
  }

  /** find_bytes over the rest of the file. */
  method FindTail(data: array<Byte>, from: nat, text: seq<Byte>) returns (r: Option<nat>)
    requires from <= data.Length
    ensures r == FindFrom(data[..], text, from)
  {
    assert data[..][from..data.Length] == data[..][from..];
    FindInWindow(data[..], text, from, 0);
    r := FindBytes(data, from, data.Length - from, text);
  }

  method ChooseSource(data: array<Byte>, start: nat, end: nat) returns (source: Option<seq<Byte>>)
    requires start <= end <= data.Length && 32 <= data.Length
    ensures source == Source(data[..], start, end)
  {
    var span := SpanBeforeNul(data, start, end);
    assert data[..][start..start + span] == CStr(data[..][start..end]) by {
      SliceOfSlice(data[..], start, end, 0, span);
    }
    var text := FindBytes(data, start, span, NEPTUNE);
    if text.Some? { return Some(data[..][text.value..end]); }
    var fallback := FindBytes(data, start, span, DEBUG_TEXT);
    if fallback.Some? { return Some(data[..][..14]); }
    return None;
  }
}
