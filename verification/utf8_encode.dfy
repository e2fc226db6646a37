/**
 * u_encode_utf8 of base/unicode/utf8.cpp: every code unit of a
 * NUL-terminated unichar string becomes 1, 2, 3 or 4 bytes chosen by its
 * range, surrogates included, and anything above 0x10FFFF becomes the
 * three replacement bytes.
 *
 * A C string is modelled by its content: the units or bytes before the
 * terminator, none of which is 0. The bitwise ORs of the source combine
 * disjoint bit fields, so they are written here as additions, and each
 * `x & 0x3F` as `x % 64`.
 */
module Utf8Encode {
  import opened Utf8Tables

  /** The content of a NUL-terminated unichar string: no unit is 0. */
  predicate IsUnitString(s: seq<nat>)
  {
    forall i :: 0 <= i < |s| ==> s[i] != 0
  }

  /** A continuation byte: 10xxxxxx. */
  predicate IsContinuation(b: int)
  {
    0x80 <= b <= 0xBF
  }

  /** The continuation byte carrying the six bits of `x` above `6 * shift`. */
  function Continuation(x: nat, shift: nat): (b: byte)
    ensures IsContinuation(b)
  {
    0x80 + (x / Pow64(shift)) % 64
  }

  /** The bytes one loop iteration writes for code unit `c`. */
  function EncodeUnit(c: nat): (r: seq<byte>)
    ensures c <= 0x7F ==> r == [c]
    ensures 0x7F < c <= 0x7FF ==> |r| == 2 && 0xC2 <= r[0] <= 0xDF
    ensures 0x7F < c <= 0x7FF ==> (r[0] as int - 0xC0) * 64 + (r[1] as int - 0x80) == c
    ensures 0x7FF < c <= 0xFFFF ==> |r| == 3 && 0xE0 <= r[0] <= 0xEF
    ensures 0x7FF < c <= 0xFFFF ==> ((r[0] as int - 0xE0) * 64 + (r[1] as int - 0x80)) * 64 + (r[2] as int - 0x80) == c
    ensures 0xFFFF < c <= 0x10FFFF ==> |r| == 4 && 0xF0 <= r[0] <= 0xF4
    ensures 0xFFFF < c <= 0x10FFFF ==>
              (((r[0] as int - 0xF0) * 64 + (r[1] as int - 0x80)) * 64 + (r[2] as int - 0x80)) * 64 + (r[3] as int - 0x80) == c
    ensures 0x10FFFF < c ==> r == Utf8ReplacementBytes
    ensures forall i :: 1 <= i < |r| ==> IsContinuation(r[i])
  {
    if c <= 0x7F then
      [c]
    else if c <= 0x7FF then
      assert Pow64(0) == 1;
      [0xC0 + c / 64, Continuation(c, 0)]
    else if c <= 0xFFFF then
      assert Pow64(0) == 1 && Pow64(1) == 64;
      ThreeGroups(c);
      [0xE0 + c / 4096, Continuation(c, 1), Continuation(c, 0)]
    else if c <= 0x10FFFF then
      assert Pow64(0) == 1 && Pow64(1) == 64 && Pow64(2) == 4096;
      FourGroups(c);
      [0xF0 + c / 262144, Continuation(c, 2), Continuation(c, 1), Continuation(c, 0)]
    else
      Utf8ReplacementBytes
  }

  /** The three six-bit groups of a unit below 0x10000 put back together. */
  lemma ThreeGroups(c: nat)
    requires c <= 0xFFFF
    ensures (c / 4096 * 64 + (c / 64) % 64) * 64 + c % 64 == c
  {
    assert c / 4096 == (c / 64) / 64;
    assert (c / 64) / 64 * 64 + (c / 64) % 64 == c / 64;
  }

  /** The four six-bit groups of a unit below 0x110000 put back together. */
  lemma FourGroups(c: nat)
    requires c <= 0x10FFFF
    ensures ((c / 262144 * 64 + (c / 4096) % 64) * 64 + (c / 64) % 64) * 64 + c % 64 == c
  {
    var q1, q2 := c / 64, c / 4096;
    assert q1 * 64 + c % 64 == c;
    assert q2 == q1 / 64 && q2 * 64 + q1 % 64 == q1;
    assert c / 262144 == q2 / 64 && c / 262144 * 64 + q2 % 64 == q2;
  }

  /** The bytes u_encode_utf8 writes before the terminator. */
  function Encode(s: seq<nat>): seq<byte>
  {
    if |s| == 0 then [] else EncodeUnit(s[0]) + Encode(s[1..])
  }

  /** Each unit occupies between one and four bytes of the output. */
  lemma {:induction false} EncodeLength(s: seq<nat>)
    ensures |s| <= |Encode(s)| <= 4 * |s|
  {
    if |s| > 0 {
      EncodeLength(s[1..]);
    }
  }

  /** Encoding distributes over concatenation. */
  lemma {:induction false} EncodeAppend(s1: seq<nat>, s2: seq<nat>)
    ensures Encode(s1 + s2) == Encode(s1) + Encode(s2)
  {
    if |s1| == 0 {
      assert s1 + s2 == s2;
    } else {
      assert (s1 + s2)[1..] == s1[1..] + s2;
      EncodeAppend(s1[1..], s2);
    }
  }

  /** A unit other than NUL never produces a zero byte. */
  lemma EncodeUnitNonZero(c: nat)
    requires c != 0
    ensures forall i :: 0 <= i < |EncodeUnit(c)| ==> EncodeUnit(c)[i] != 0
  {
  }

  /** The encoding of a NUL-free string is itself NUL-free, so the terminator is unambiguous. */
  lemma {:induction false} EncodeNonZero(s: seq<nat>)
    requires IsUnitString(s)
    ensures forall i :: 0 <= i < |Encode(s)| ==> Encode(s)[i] != 0
  {
    if |s| > 0 {
      EncodeUnitNonZero(s[0]);
      EncodeNonZero(s[1..]);
    }
  }

  /**
   * Every lead byte the encoder emits is filed in the index table under a
   * class whose width is the number of bytes actually emitted.
   */
  lemma EncodeUnitLeadWidth(c: nat)
    requires c != 0
    ensures LeadWidth(EncodeUnit(c)[0]) == |EncodeUnit(c)|
    ensures 0x7F < c <= 0x7FF ==> LeadIndex(EncodeUnit(c)[0]) == 2
  {
  }

  /**
   * u_encode_utf8: walks the units up to the terminator, appends each
   * unit's bytes, writes the terminator and returns the number of bytes
   * written before it.
   */
  method EncodeUtf8(source: seq<nat>) returns (destination: seq<byte>, pos: nat)
    requires IsUnitString(source)
    ensures pos == |Encode(source)|
    ensures |destination| == pos + 1 && destination[pos] == 0
    ensures destination[..pos] == Encode(source)
    ensures forall i :: 0 <= i < pos ==> destination[i] != 0
  {
    var out: seq<byte> := [];
    var it := 0;
    while it < |source|
      invariant 0 <= it <= |source|
      invariant out == Encode(source[..it])
    {
      EncodeAppend(source[..it], [source[it]]);
      assert source[..it + 1] == source[..it] + [source[it]];
      out := out + EncodeUnit(source[it]);
      it := it + 1;
    }
    assert source[..it] == source;
    EncodeNonZero(source);
    pos := |out|;
    destination := out + [0];
  }
}
