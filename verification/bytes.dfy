/** Bytes, little-endian integers and in-place byte copies (`memcpy` onto a buffer). */
module Bytes {

  /** An unsigned 8-bit value (`uint8_t`). */
  type Byte = x: int | 0 <= x < 256

  /** 256 to the power `n`: the number of values that fit in `n` bytes. */
  function Pow256(n: nat): (r: nat)
    ensures r >= 1
    ensures n >= 1 ==> r >= 256
  {
    if n == 0 then 1 else 256 * Pow256(n - 1)
  }

  /** A run of `n` zero bytes, as left by `memset(buf, 0, n)`. */
  function Zeros(n: nat): (r: seq<Byte>)
    ensures |r| == n
    ensures forall i :: 0 <= i < n ==> r[i] == 0
  {
    seq(n, _ => 0)
  }

  /** The `width` bytes of `v`, least significant byte first (the byte order of the ESP32 cores). */
  function LittleEndian(v: nat, width: nat): (r: seq<Byte>)
    requires v < Pow256(width)
    ensures |r| == width
    ensures width >= 1 ==> r[0] == v % 256
  {
    if width == 0 then []
    else
      assert v / 256 < Pow256(width - 1);
      [v % 256] + LittleEndian(v / 256, width - 1)
  }

  /** The unsigned number whose little-endian bytes are `bs`. */
  function LittleEndianValue(bs: seq<Byte>): (r: nat)
    ensures r < Pow256(|bs|)
  {
    if bs == [] then 0 else bs[0] + 256 * LittleEndianValue(bs[1..])
  }

  /** Reading back the bytes of a value gives the value. */
  lemma {:induction false} ValueOfLittleEndian(v: nat, width: nat)
    requires v < Pow256(width)
    ensures LittleEndianValue(LittleEndian(v, width)) == v
  {
    if width > 0 {
      var bs := LittleEndian(v, width);
      assert bs[1..] == LittleEndian(v / 256, width - 1);
      ValueOfLittleEndian(v / 256, width - 1);
    }
  }

  /** Writing out the value of a byte string gives the byte string back. */
  lemma {:induction false} LittleEndianOfValue(bs: seq<Byte>)
    ensures LittleEndian(LittleEndianValue(bs), |bs|) == bs
  {
    if bs != [] {
      var rest := LittleEndianValue(bs[1..]);
      var v := bs[0] + 256 * rest;
      assert v % 256 == bs[0];
      assert v / 256 == rest;
      LittleEndianOfValue(bs[1..]);
    }
  }

  /** `base` with `part` copied over it starting at index `at`: `memcpy(base + at, part, |part|)`. */
  function Overlay<T>(base: seq<T>, at: nat, part: seq<T>): (r: seq<T>)
    requires at + |part| <= |base|
    ensures |r| == |base|
    ensures r[at..at + |part|] == part
  {
    base[..at] + part + base[at + |part|..]
  }

  /** A copy leaves every range it does not touch as it was. */
  lemma OverlayKeepsRange<T>(base: seq<T>, at: nat, part: seq<T>, lo: nat, hi: nat)
    requires at + |part| <= |base| && lo <= hi <= |base|
    requires hi <= at || at + |part| <= lo
    ensures Overlay(base, at, part)[lo..hi] == base[lo..hi]
  {
    var r := Overlay(base, at, part);
    forall i | lo <= i < hi
      ensures r[i] == base[i]
    {
      if i < at {
        assert r[i] == base[..at][i];
      } else {
        assert r[i] == base[at + |part|..][i - at - |part|];
      }
    }
  }

  /** A copy leaves every index it does not touch as it was. */
  lemma OverlayKeepsIndex<T>(base: seq<T>, at: nat, part: seq<T>, i: nat)
    requires at + |part| <= |base| && i < |base|
    requires i < at || at + |part| <= i
    ensures Overlay(base, at, part)[i] == base[i]
  {
    if i < at {
      assert Overlay(base, at, part)[i] == base[..at][i];
    } else {
      assert Overlay(base, at, part)[i] == base[at + |part|..][i - at - |part|];
    }
  }

  /** Copying a buffer's own bytes back onto it changes nothing. */
  lemma OverlaySelf<T>(base: seq<T>, at: nat, n: nat)
    requires at + n <= |base|
    ensures Overlay(base, at, base[at..at + n]) == base
  {
    assert base[..at] + base[at..at + n] + base[at + n..] == base;
  }
}
