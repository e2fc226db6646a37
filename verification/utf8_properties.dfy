/**
 * Properties relating the encoder and the decoders of base/unicode/utf8.cpp:
 * the round trip over the Basic Multilingual Plane, and the inputs on which
 * the decoder as written jumps past the terminator or swallows text.
 */
module Utf8Properties {
  import opened Utf8Tables
  import opened Utf8Encode
  import opened Utf8Decode
  import opened Wrappers

  /** Units the 16-bit decoder can reproduce: 1..0xFFFF, surrogates included. */
  predicate IsBmpString(s: seq<nat>)
  {
    forall i :: 0 <= i < |s| ==> 1 <= s[i] <= 0xFFFF
  }

  /** Bytes below 0x80 other than the terminator. */
  predicate IsAsciiString(s: seq<byte>)
  {
    forall i :: 0 <= i < |s| ==> 1 <= s[i] <= 0x7F
  }

  /** The bytes of a two-byte unit carry its upper five and lower six bits. */
  lemma StepOnTwoByteUnit(c: nat, rest: seq<byte>)
    requires 0x7F < c <= 0x7FF
    ensures DecodeStepAsWritten(EncodeUnit(c) + rest) == Unit(c, 2)
  {
    var s := EncodeUnit(c) + rest;
    var hi, lo := c / 64, c % 64;
    assert Pow64(0) == 1;
    assert s[0] == 0xC0 + hi && s[1] == 0x80 + lo;
    assert LeadWidth(s[0]) == 2 && LeadMask(s[0]) == 0x1f;
    assert AndLowMask(s[0], 0x1f) == hi;
    assert s[1..2] == [0x80 + lo];
    ShiftInOne(hi, 0x80 + lo);
    assert LeadValue(s, 1) == c;
  }

  /** The bytes of a three-byte unit carry its upper four bits and two groups of six. */
  lemma StepOnThreeByteUnit(c: nat, rest: seq<byte>)
    requires 0x7FF < c <= 0xFFFF
    ensures DecodeStepAsWritten(EncodeUnit(c) + rest) == Unit(c, 3)
  {
    var s := EncodeUnit(c) + rest;
    var hi, mid, lo := c / 4096, (c / 64) % 64, c % 64;
    assert Pow64(0) == 1 && Pow64(1) == 64;
    assert s[0] == 0xE0 + hi && s[1] == 0x80 + mid && s[2] == 0x80 + lo;
    assert LeadWidth(s[0]) == 3 && LeadMask(s[0]) == 0x0f;
    assert AndLowMask(s[0], 0x0f) == hi;
    assert s[1..3] == [0x80 + mid, 0x80 + lo];
    ShiftInTwo(hi, 0x80 + mid, 0x80 + lo);
    assert ContinuationBits(0x80 + mid) == mid && ContinuationBits(0x80 + lo) == lo;
    ThreeGroups(c);
    assert LeadValue(s, 2) == (hi * 64 + mid) * 64 + lo;
  }

  /** Decoding the bytes of one unit, whatever follows them, yields that unit. */
  lemma StepOnEncodedUnit(c: nat, rest: seq<byte>)
    requires 1 <= c <= 0xFFFF
    ensures |EncodeUnit(c) + rest| > 0
    ensures DecodeStepAsWritten(EncodeUnit(c) + rest) == Unit(c, |EncodeUnit(c)|)
    ensures DecodeStep(EncodeUnit(c) + rest) == Unit(c, |EncodeUnit(c)|)
  {
    if c <= 0x7F {
    } else if c <= 0x7FF {
      StepOnTwoByteUnit(c, rest);
    } else {
      StepOnThreeByteUnit(c, rest);
    }
  }

  /** Both decoders turn the bytes of a unit followed by `rest` into the unit followed by the decoding of `rest`. */
  lemma DecodeEncodedUnit(c: nat, rest: seq<byte>)
    requires 1 <= c <= 0xFFFF && IsByteString(rest)
    ensures IsByteString(EncodeUnit(c) + rest)
    ensures DecodeAsWritten(EncodeUnit(c) + rest) == Prepend([c], DecodeAsWritten(rest))
    ensures Decode(EncodeUnit(c) + rest) == [c] + Decode(rest)
  {
    EncodeUnitNonZero(c);
    var s := EncodeUnit(c) + rest;
    StepOnEncodedUnit(c, rest);
    assert s[|EncodeUnit(c)|..] == rest;
  }

  /**
   * Round trip: for a string of units in 1..0xFFFF, decoding the encoder's
   * bytes gives back exactly the units, before u_replace_if_invalid.
   */
  lemma {:induction false} RoundTrip(s: seq<nat>)
    requires IsBmpString(s)
    ensures IsByteString(Encode(s))
    ensures DecodeAsWritten(Encode(s)) == Ok(s)
    ensures Decode(Encode(s)) == s
  {
    if |s| > 0 {
      RoundTrip(s[1..]);
      DecodeEncodedUnit(s[0], Encode(s[1..]));
      assert [s[0]] + s[1..] == s;
    }
  }

  /** ASCII text decodes to itself under both decoders. */
  lemma {:induction false} DecodeAscii(s: seq<byte>)
    requires IsAsciiString(s)
    ensures IsByteString(s)
    ensures DecodeAsWritten(s) == Ok(s)
    ensures Decode(s) == s
  {
    if |s| > 0 {
      DecodeAscii(s[1..]);
      assert [s[0]] + s[1..] == s;
    }
  }

  /** A lone invalid lead byte: the 256-byte jump lands 255 bytes past the terminator. */
  lemma InvalidLeadOverRead()
    ensures IsByteString([0x80])
    ensures DecodeAsWritten([0x80]) == Err(OverRead(0x80, 256, 1))
    ensures Decode([0x80]) == [ReplacementChar]
  {
  }

  /**
   * An invalid lead byte followed by 255 letters and a final letter: the
   * decoder as written emits one replacement character for the first 256
   * bytes and loses the 255 letters.
   */
  lemma InvalidLeadSwallowsText()
    ensures IsByteString([0xC0] + seq(255, _ => 0x41) + [0x42])
    ensures DecodeAsWritten([0xC0] + seq(255, _ => 0x41) + [0x42]) == Ok([ReplacementChar, 0x42])
    ensures Decode([0xC0] + seq(255, _ => 0x41) + [0x42]) == [ReplacementChar] + seq(255, _ => 0x41) + [0x42]
  {
    var text := seq(255, _ => 0x41) + [0x42];
    var s := [0xC0] + text;
    assert s == [0xC0] + seq(255, _ => 0x41) + [0x42];
    assert IsAsciiString(text);
    DecodeAscii(text);
    assert s[1..] == text;
    InvalidLeadKeepsTail(s, [0x42]);
    DecodeAscii([0x42]);
    assert [ReplacementChar] + [0x42] == [ReplacementChar, 0x42];
  }

  /**
   * A string of 257 bytes starting with the invalid lead C0: the source
   * decodes the first 256 bytes to one replacement character, the
   * correction only the first byte.
   */
  lemma InvalidLeadKeepsTail(s: seq<byte>, last: seq<byte>)
    requires IsByteString(s) && |s| == 257 && s[0] == 0xC0 && last == s[256..]
    ensures DecodeAsWritten(s) == Prepend([ReplacementChar], DecodeAsWritten(last))
    ensures Decode(s) == [ReplacementChar] + Decode(s[1..])
  {
    assert LeadWidth(s[0]) == 0;
    assert DecodeStepAsWritten(s) == Unit(ReplacementChar, 256);
    DecodeAsWrittenUnfold(s, ReplacementChar, 256);
  }

  /**
   * A four-byte sequence cut short by the terminator (F0 9F): the skip of
   * three more bytes passes the terminator.
   */
  lemma TruncatedFourByteOverRead()
    ensures IsByteString([0xF0, 0x9F])
    ensures DecodeAsWritten([0xF0, 0x9F]) == Err(OverRead(0xF0, 4, 2))
    ensures Decode([0xF0, 0x9F]) == [ReplacementChar]
  {
    assert [0xF0, 0x9F][2..] == [];
  }

  /**
   * A sequence of width 1..3 cut short by the terminator stops there: E4 B8
   * yields (4 << 6) | 0x38 and nothing more.
   */
  lemma TruncatedSequenceStopsAtTerminator()
    ensures IsByteString([0xE4, 0xB8])
    ensures DecodeAsWritten([0xE4, 0xB8]) == Ok([0x138])
  {
    var s: seq<byte> := [0xE4, 0xB8];
    assert LeadWidth(0xE4) == 3 && LeadMask(0xE4) == 0x0f && AndLowMask(0xE4, 0x0f) == 4;
    assert s[1..2] == [0xB8];
    ShiftInOne(4, 0xB8);
    assert DecodeStepAsWritten(s) == Unit(0x138, 2);
    assert s[2..] == [];
    DecodeAsWrittenUnfold(s, 0x138, 2);
    assert DecodeAsWritten(s[2..]) == Ok([]);
    assert [0x138] + [] == [0x138];
  }

  /**
   * Continuation bytes are masked, never checked against the table's
   * ranges: the overlong E0 80 80 decodes to 0 and the surrogate ED A0 80
   * decodes to 0xD800.
   */
  lemma ContinuationRangesUnchecked()
    ensures IsByteString([0xE0, 0x80, 0x80]) && IsByteString([0xED, 0xA0, 0x80])
    ensures DecodeAsWritten([0xE0, 0x80, 0x80]) == Ok([0])
    ensures DecodeAsWritten([0xED, 0xA0, 0x80]) == Ok([0xD800])
  {
    DecodeThreeBytes(0xE0, 0x80, 0x80);
    DecodeThreeBytes(0xED, 0xA0, 0x80);
  }

  /**
   * A lead of width 3 and two following non-zero bytes decode to one value,
   * whatever their two high bits are.
   */
  lemma DecodeThreeBytes(b0: byte, b1: byte, b2: byte)
    requires LeadWidth(b0) == 3 && b1 != 0 && b2 != 0
    ensures DecodeAsWritten([b0, b1, b2]) ==
              Ok([((b0 % 16) * 64 + b1 % 64) * 64 + b2 % 64])
  {
    var s: seq<byte> := [b0, b1, b2];
    var v := ((b0 % 16) * 64 + b1 % 64) * 64 + b2 % 64;
    assert AndLowMask(b0, LeadMask(b0)) == b0 % 16;
    assert s[1..3] == [b1, b2] && s[3..] == [];
    ShiftInTwo(b0 % 16, b1, b2);
    assert DecodeStepAsWritten(s) == Unit(v, 3);
    DecodeAsWrittenUnfold(s, v, 3);
    assert DecodeAsWritten(s[3..]) == Ok([]) && [v] + [] == [v];
  }
}
