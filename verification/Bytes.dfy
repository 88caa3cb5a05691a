/** Bytes, little-endian fields, C strings in fixed buffers and bit masks, as the WMT launcher uses them. */
module Bytes {

  type Byte = x: int | 0 <= x < 256

  /** What a system call reports: 0 or a negative errno. */
  type Status = x: int | -4095 <= x <= 0

  /** The width of a name field, in records and in metadata. */
  const NAME_SIZE: nat := 256

  const SLASH: Byte := 47

  /** A file name: bytes without NUL. */
  type Name = s: seq<Byte> | 0 !in s

  function Pow256(n: nat): nat { if n == 0 then 1 else 256 * Pow256(n - 1) }

  lemma SliceOfSlice(f: seq<Byte>, i: nat, j: nat, k: nat, l: nat)
    requires i <= j <= |f| && k <= l <= j - i
    ensures f[i..j][k..l] == f[i + k..i + l]
  {
    var (a, b) := (f[i..j], f[i + k..i + l]);
    assert forall m :: 0 <= m < j - i ==> a[m] == f[i + m];
    assert forall m :: 0 <= m < l - k ==> a[k..l][m] == a[k + m] && b[m] == f[i + k + m];
    assert a[k..l] == b;
  }

  // ---------------------------------------------------------------- little endian

  /** The `n` low bytes of `value`, least significant first. */
  function LE(value: nat, n: nat): (r: seq<Byte>)
    ensures |r| == n
    decreases n
  {
    if n == 0 then [] else [value % 256] + LE(value / 256, n - 1)
  }

  function FromLE(bs: seq<Byte>): nat
  {
    if bs == [] then 0 else bs[0] + 256 * FromLE(bs[1..])
  }

  /** Reading back a field that was wide enough gives the value. */
  lemma {:induction false} ReadsBack(value: nat, n: nat)
    requires value < Pow256(n)
    ensures FromLE(LE(value, n)) == value
    decreases n
  {
    if n > 0 {
      ReadsBack(value / 256, n - 1);
      assert LE(value, n)[1..] == LE(value / 256, n - 1);
    }
  }

  /** Writing what was read gives the same bytes, and fits the field. */
  lemma {:induction false} WritesBack(bs: seq<Byte>)
    ensures FromLE(bs) < Pow256(|bs|) && LE(FromLE(bs), |bs|) == bs
    decreases |bs|
  {
    if bs != [] {
      WritesBack(bs[1..]);
      assert FromLE(bs) % 256 == bs[0] && FromLE(bs) / 256 == FromLE(bs[1..]);
    }
  }

  lemma FieldWidths()
    ensures Pow256(2) == 0x1_0000 && Pow256(4) == 0x1_0000_0000 && Pow256(8) == 0x1_0000_0000_0000_0000
  {
    assert Pow256(1) == 256;
    assert Pow256(3) == 0x100_0000;
    assert Pow256(5) == 0x100_0000_0000;
    assert Pow256(6) == 0x1_0000_0000_0000;
    assert Pow256(7) == 0x100_0000_0000_0000;
  }

  // ---------------------------------------------------------------- C strings

  /** The bytes before the first NUL, or all of them. */
  function CStr(buffer: seq<Byte>): (r: seq<Byte>)
    ensures |r| <= |buffer| && r == buffer[..|r|] && 0 !in r
    ensures |r| < |buffer| ==> buffer[|r|] == 0
  {
    if buffer == [] || buffer[0] == 0 then [] else [buffer[0]] + CStr(buffer[1..])
  }

  function Zeros(n: nat): (r: seq<Byte>)
    ensures |r| == n && forall i :: 0 <= i < n ==> r[i] == 0
  {
    seq(n, _ => 0)
  }

  /** A C string is determined by its buffer up to the first NUL. */
  lemma {:induction false} CStrUnique(buffer: seq<Byte>, n: nat)
    requires n < |buffer| && buffer[n] == 0 && forall i :: 0 <= i < n ==> buffer[i] != 0
    ensures CStr(buffer) == buffer[..n]
    decreases n
  {
    if n > 0 {
      CStrUnique(buffer[1..], n - 1);
      assert buffer[..n] == [buffer[0]] + buffer[1..][..n - 1];
    }
  }

  lemma {:induction false} CStrOfText(text: seq<Byte>, rest: seq<Byte>)
    requires 0 !in text
    ensures CStr(text + [0] + rest) == text
  {
    var b := text + [0] + rest;
    assert forall i :: 0 <= i < |text| ==> b[i] == text[i];
    CStrUnique(b, |text|);
    assert b[..|text|] == text;
  }

  // ---------------------------------------------------------------- bit masks

  function Pow2(n: nat): nat { if n == 0 then 1 else 2 * Pow2(n - 1) }

  /** (mask >> i) & 1. */
  function Bit(mask: nat, i: nat): bool
    decreases i
  {
    if i == 0 then mask % 2 == 1 else Bit(mask / 2, i - 1)
  }

  /** mask | (1 << i). */
  function SetBit(mask: nat, i: nat): nat
    decreases i
  {
    if i == 0 then (if mask % 2 == 1 then mask else mask + 1) else mask % 2 + 2 * SetBit(mask / 2, i - 1)
  }

  /** The mask whose bits are these flags. */
  function MaskOf(flags: seq<bool>): nat
  {
    if flags == [] then 0 else (if flags[0] then 1 else 0) + 2 * MaskOf(flags[1..])
  }

  lemma {:induction false} EmptyMask(n: nat)
    ensures MaskOf(seq(n, _ => false)) == 0
    decreases n
  {
    if n > 0 {
      assert seq(n, _ => false)[1..] == seq(n - 1, _ => false);
      EmptyMask(n - 1);
    }
  }

  lemma {:induction false} BitOfMask(flags: seq<bool>, i: nat)
    ensures Bit(MaskOf(flags), i) == (i < |flags| && flags[i])
    decreases i
  {
    if flags == [] {
      ZeroHasNoBits(i);
    } else if i > 0 {
      BitOfMask(flags[1..], i - 1);
    }
  }

  lemma {:induction false} ZeroHasNoBits(i: nat)
    ensures !Bit(0, i)
    decreases i
  {
    if i > 0 { ZeroHasNoBits(i - 1); }
  }

  lemma {:induction false} SetBitOfMask(flags: seq<bool>, i: nat)
    requires i < |flags|
    ensures SetBit(MaskOf(flags), i) == MaskOf(flags[i := true])
    decreases i
  {
    if i > 0 {
      SetBitOfMask(flags[1..], i - 1);
      assert flags[i := true][1..] == flags[1..][i - 1 := true];
    } else {
      assert flags[0 := true][1..] == flags[1..];
    }
  }

  /** (1 << c) - 1 is the mask of exactly the first c flags. */
  lemma {:induction false} FullMask(flags: seq<bool>, c: nat)
    requires c <= |flags|
    ensures MaskOf(flags) == Pow2(c) - 1 <==> forall i :: 0 <= i < |flags| ==> flags[i] == (i < c)
    decreases |flags|
  {
    if flags != [] {
      if c > 0 {
        FullMask(flags[1..], c - 1);
      } else {
        FullMask(flags[1..], 0);
      }
      assert forall i :: 0 <= i < |flags[1..]| ==> flags[1..][i] == flags[i + 1];
      if MaskOf(flags) == Pow2(c) - 1 {
        forall i | 0 <= i < |flags| ensures flags[i] == (i < c) {
          if i > 0 { assert flags[i] == flags[1..][i - 1]; }
        }
      }
    }
  }
}
