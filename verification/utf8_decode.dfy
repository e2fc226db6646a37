/**
 * u_decode_utf8 of base/unicode/utf8.cpp, as written and corrected.
 *
 * The decoder looks the lead byte up in the index table, takes the width
 * and mask of that class, and for widths 1 to 3 shifts in the low six bits
 * of each following byte, stopping early at the terminator. Widths 0 and 4
 * produce the replacement character and jump `width - 1` further bytes,
 * where `width - 1` is stored in a uint8_t: for width 0 it wraps to 255.
 * Neither jump looks for the terminator, so it can land past it; the model
 * reports that as an OverRead error instead of continuing.
 *
 * The value of every step is the one handed to u_replace_if_invalid, which
 * is not part of this model: the destination holds `replace(value)` for a
 * caller-supplied `replace`.
 */
module Utf8Decode {
  import opened Utf8Tables
  import opened Wrappers

  /** The content of a NUL-terminated byte string: no byte is 0. */
  predicate IsByteString(s: seq<byte>)
  {
    forall i :: 0 <= i < |s| ==> s[i] != 0
  }

  function Min(a: nat, b: nat): nat
  {
    if a <= b then a else b
  }

  /** `b & 0x3F`: the payload of a continuation byte, never range-checked. */
  function ContinuationBits(b: byte): (r: nat)
    ensures r < 64
  {
    b % 64
  }

  /** `value = (value << 6) | (b & 0x3F)` for each byte `b` of `conts` in turn. */
  function ShiftIn(value: nat, conts: seq<byte>): nat
    decreases |conts|
  {
    if |conts| == 0 then value
    else ShiftIn(value * 64 + ContinuationBits(conts[0]), conts[1..])
  }

  /** Shifting in `n` bytes multiplies a bound on the value by 64^n. */
  lemma {:induction false} ShiftInBound(value: nat, bound: nat, conts: seq<byte>)
    requires value < bound
    ensures ShiftIn(value, conts) < bound * Pow64(|conts|)
    decreases |conts|
  {
    if |conts| > 0 {
      ShiftInBound(value * 64 + ContinuationBits(conts[0]), bound * 64, conts[1..]);
      assert bound * 64 * Pow64(|conts| - 1) == bound * Pow64(|conts|);
    }
  }

  /** `encoded_offset = encoded_width - 1u` kept in a uint8_t. */
  function EncodedOffset(width: nat): (o: nat)
    requires width <= 4
    ensures width == 0 ==> o == 255
    ensures width > 0 ==> o == width - 1
  {
    (width - 1) % 256
  }

  /** The outcome of one iteration of the decoding loop. */
  datatype Step =
    | Unit(value: nat, consumed: nat)  // the value passed to u_replace_if_invalid and the bytes consumed
    | Overrun(jump: nat)               // the iterator was moved `jump` bytes, past the terminator

  /** The value of a sequence of decodable width read from the lead and `k` continuation bytes. */
  function LeadValue(s: seq<byte>, k: nat): nat
    requires k < |s|
  {
    ShiftIn(AndLowMask(s[0], LeadMask(s[0])), s[1..1 + k])
  }

  /** A decoded value of a width 1..3 sequence of `k + 1` bytes fits in 16 bits. */
  lemma LeadValueBound(s: seq<byte>, k: nat)
    requires k < |s| && HasValidUtf8Width(LeadWidth(s[0])) && k < LeadWidth(s[0])
    ensures LeadValue(s, k) < 0x10000
  {
    if k == 0 {
      assert s[1..1 + k] == [];
    } else if k == 1 {
      LeadValueOne(s);
    } else {
      LeadValueTwo(s);
    }
  }

  /** A lead of width 2 or 3 keeps five bits or fewer; one continuation adds six. */
  lemma LeadValueOne(s: seq<byte>)
    requires 1 < |s| && 2 <= LeadWidth(s[0]) <= 3
    ensures LeadValue(s, 1) < 0x800
  {
    var lead := AndLowMask(s[0], LeadMask(s[0]));
    assert lead < 32 && |s[1..2]| == 1 && Pow64(1) == 64;
    ShiftInBound(lead, 32, s[1..2]);
  }

  /** A lead of width 3 keeps four bits; two continuations add twelve. */
  lemma LeadValueTwo(s: seq<byte>)
    requires 2 < |s| && LeadWidth(s[0]) == 3
    ensures LeadValue(s, 2) < 0x10000
  {
    var lead := AndLowMask(s[0], LeadMask(s[0]));
    assert lead < 16 && |s[1..3]| == 2 && Pow64(2) == 4096;
    ShiftInBound(lead, 16, s[1..3]);
  }

  lemma ShiftInOne(value: nat, b: byte)
    ensures ShiftIn(value, [b]) == value * 64 + ContinuationBits(b)
  {
    assert [b][1..] == [];
  }

  lemma ShiftInTwo(value: nat, b0: byte, b1: byte)
    ensures ShiftIn(value, [b0, b1]) == (value * 64 + ContinuationBits(b0)) * 64 + ContinuationBits(b1)
  {
    assert [b0, b1][1..] == [b1];
    ShiftInOne(value * 64 + ContinuationBits(b0), b1);
  }

  /** One iteration of the loop of u_decode_utf8, at the start of `s`. */
  function DecodeStepAsWritten(s: seq<byte>): (r: Step)
    requires |s| > 0
    ensures r.Unit? ==> 1 <= r.consumed <= |s|
    ensures r.Overrun? ==> |s| < r.jump
    ensures HasValidUtf8Width(LeadWidth(s[0])) ==>
              r.Unit? && r.consumed <= LeadWidth(s[0]) && r.value < 0x10000
    ensures HasValidUtf8Width(LeadWidth(s[0])) && LeadWidth(s[0]) <= |s| ==> r.consumed == LeadWidth(s[0])
    ensures LeadWidth(s[0]) == 1 ==> r == Unit(s[0], 1)
    ensures LeadWidth(s[0]) == 0 ==> r == if 256 <= |s| then Unit(ReplacementChar, 256) else Overrun(256)
    ensures LeadWidth(s[0]) == 4 ==> r == if 4 <= |s| then Unit(ReplacementChar, 4) else Overrun(4)
  {
    var w := LeadWidth(s[0]);
    var offset := EncodedOffset(w);
    if HasValidUtf8Width(w) then
      var k := Min(offset, |s| - 1);
      LeadValueBound(s, k);
      Unit(LeadValue(s, k), 1 + k)
    else if 1 + offset <= |s| then
      Unit(ReplacementChar, 1 + offset)
    else
      Overrun(1 + offset)
  }

  /** A jump of `jump` bytes from lead byte `lead`, with only `available` bytes before the terminator. */
  datatype DecodeError = OverRead(lead: byte, jump: nat, available: nat)

  /**
   * The values u_decode_utf8 hands to u_replace_if_invalid, in order, or
   * the over-read that ends the decoding.
   */
  function DecodeAsWritten(s: seq<byte>): (r: Result<seq<nat>, DecodeError>)
    ensures r.Ok? ==> |r.value| <= |s|
    ensures r.Err? ==> r.error.available < r.error.jump && r.error.jump in {4, 256}
    decreases |s|
  {
    if |s| == 0 then Ok([])
    else
      match DecodeStepAsWritten(s)
      case Overrun(jump) => Err(OverRead(s[0], jump, |s|))
      case Unit(v, n) =>
        match DecodeAsWritten(s[n..])
        case Ok(rest) => Ok([v] + rest)
        case Err(e) => Err(e)
  }

  /** Every value the decoder as written produces fits in 16 bits. */
  lemma {:induction false} DecodeAsWrittenBelow(s: seq<byte>)
    requires DecodeAsWritten(s).Ok?
    ensures forall i :: 0 <= i < |DecodeAsWritten(s).value| ==> DecodeAsWritten(s).value[i] < 0x10000
    decreases |s|
  {
    if |s| > 0 {
      var step := DecodeStepAsWritten(s);
      DecodeAsWrittenBelow(s[step.consumed..]);
    }
  }

  /** `raw` followed by the values of `r`, or the error of `r`. */
  function Prepend(raw: seq<nat>, r: Result<seq<nat>, DecodeError>): Result<seq<nat>, DecodeError>
  {
    match r
    case Ok(rest) => Ok(raw + rest)
    case Err(e) => Err(e)
  }

  /** One step of the loop followed by the rest of the decoding. */
  lemma DecodeAsWrittenUnfold(s: seq<byte>, v: nat, n: nat)
    requires |s| > 0 && DecodeStepAsWritten(s) == Unit(v, n)
    ensures n <= |s|
    ensures DecodeAsWritten(s) == Prepend([v], DecodeAsWritten(s[n..]))
  {
    var tail := DecodeAsWritten(s[n..]);
    if tail.Ok? {
      assert DecodeAsWritten(s) == Ok([v] + tail.value);
    } else {
      assert DecodeAsWritten(s) == Err(tail.error);
    }
  }

  lemma PrependAppend(a: seq<nat>, b: seq<nat>, r: Result<seq<nat>, DecodeError>)
    ensures Prepend(a, Prepend(b, r)) == Prepend(a + b, r)
  {
    if r.Ok? {
      assert a + (b + r.value) == (a + b) + r.value;
    }
  }

  /** The destination units: u_replace_if_invalid applied to each decoded value, in order. */
  function ApplyReplace(raw: seq<nat>, replace: nat -> nat): (r: seq<nat>)
    ensures |r| == |raw|
    decreases |raw|
  {
    if |raw| == 0 then []
    else ApplyReplace(raw[..|raw| - 1], replace) + [replace(raw[|raw| - 1])]
  }

  /** Unit `i` of the destination is the replacement of decoded value `i`. */
  lemma {:induction false} ApplyReplaceAt(raw: seq<nat>, replace: nat -> nat, i: nat)
    requires i < |raw|
    ensures ApplyReplace(raw, replace)[i] == replace(raw[i])
    decreases |raw|
  {
    if i < |raw| - 1 {
      ApplyReplaceAt(raw[..|raw| - 1], replace, i);
    }
  }

  lemma ApplyReplaceSnoc(raw: seq<nat>, v: nat, replace: nat -> nat)
    ensures ApplyReplace(raw + [v], replace) == ApplyReplace(raw, replace) + [replace(v)]
  {
    assert (raw + [v])[..|raw|] == raw;
  }

  /**
   * An iteration of the loop that produces a value extends the decoded
   * prefix by it; `rest` is the source from the iterator on.
   */
  lemma DecodeLoopStep(whole: Result<seq<nat>, DecodeError>, raw: seq<nat>, rest: seq<byte>, v: nat, n: nat)
    requires |rest| > 0 && DecodeStepAsWritten(rest) == Unit(v, n)
    requires whole == Prepend(raw, DecodeAsWritten(rest))
    ensures n <= |rest|
    ensures whole == Prepend(raw + [v], DecodeAsWritten(rest[n..]))
  {
    DecodeAsWrittenUnfold(rest, v, n);
    PrependAppend(raw, [v], DecodeAsWritten(rest[n..]));
  }

  /** An iteration of the loop that jumps past the terminator ends the decoding with the over-read. */
  lemma DecodeLoopOverrun(whole: Result<seq<nat>, DecodeError>, raw: seq<nat>, rest: seq<byte>, jump: nat)
    requires |rest| > 0 && DecodeStepAsWritten(rest) == Overrun(jump)
    requires whole == Prepend(raw, DecodeAsWritten(rest))
    ensures whole == Err(OverRead(rest[0], jump, |rest|))
  {
    DecodeAsWrittenOverrun(rest, jump);
  }

  /** A step that jumps past the terminator ends the decoding with the over-read. */
  lemma DecodeAsWrittenOverrun(s: seq<byte>, jump: nat)
    requires |s| > 0 && DecodeStepAsWritten(s) == Overrun(jump)
    ensures DecodeAsWritten(s) == Err(OverRead(s[0], jump, |s|))
  {
  }

  /**
   * u_decode_utf8: the loop over the source, one step per destination
   * unit, followed by the terminator. `rest` is the source from the
   * iterator on; the loop ends at the terminator, where `rest` is empty.
   * An over-read returns the error instead of a destination. `pos` is
   * the number of units written before the terminator, the value the
   * function returns.
   */
  method DecodeUtf8(source: seq<byte>, replace: nat -> nat) returns (r: Result<seq<nat>, DecodeError>, pos: nat)
    requires IsByteString(source)
    ensures DecodeAsWritten(source).Ok? ==>
              r == Ok(ApplyReplace(DecodeAsWritten(source).value, replace) + [0])
    ensures DecodeAsWritten(source).Ok? ==> pos == |DecodeAsWritten(source).value| && r.value[pos] == 0
    ensures DecodeAsWritten(source).Err? ==> r == Err(DecodeAsWritten(source).error)
  {
    var destination: seq<nat> := [];
    ghost var raw: seq<nat> := [];
    var rest := source;
    assert DecodeAsWritten(source).Ok? ==> [] + DecodeAsWritten(source).value == DecodeAsWritten(source).value;
    while |rest| > 0
      invariant destination == ApplyReplace(raw, replace)
      invariant DecodeAsWritten(source) == Prepend(raw, DecodeAsWritten(rest))
      decreases |rest|
    {
      var step := DecodeStepAsWritten(rest);
      if step.Overrun? {
        DecodeLoopOverrun(DecodeAsWritten(source), raw, rest, step.jump);
        return Err(OverRead(rest[0], step.jump, |rest|)), |destination|;
      }
      var v, n := step.value, step.consumed;
      DecodeLoopStep(DecodeAsWritten(source), raw, rest, v, n);
      ApplyReplaceSnoc(raw, v, replace);
      raw := raw + [v];
      destination := destination + [replace(v)];
      rest := rest[n..];
    }
    assert raw + [] == raw;
    r, pos := Ok(destination + [0]), |destination|;
  }

  // ---------------------------------------------------------------------
  // The corrected decoder: an invalid lead consumes only itself, and the
  // skip over a four-byte sequence stops at the terminator like the loop
  // over the continuation bytes does.
  // ---------------------------------------------------------------------

  /** One step of the corrected decoder; it never moves past the terminator. */
  function DecodeStep(s: seq<byte>): (r: Step)
    requires |s| > 0
    ensures r.Unit? && 1 <= r.consumed <= |s| && r.consumed <= 4 && r.value < 0x10000
    ensures HasValidUtf8Width(LeadWidth(s[0])) ==> r == DecodeStepAsWritten(s)
    ensures !HasValidUtf8Width(LeadWidth(s[0])) ==> r.value == ReplacementChar
    ensures LeadWidth(s[0]) == 0 ==> r.consumed == 1
    ensures LeadWidth(s[0]) == 4 && 4 <= |s| ==> r == DecodeStepAsWritten(s)
  {
    var w := LeadWidth(s[0]);
    var k := Min(if w == 0 then 0 else w - 1, |s| - 1);
    if HasValidUtf8Width(w) then
      LeadValueBound(s, k);
      Unit(LeadValue(s, k), 1 + k)
    else
      Unit(ReplacementChar, 1 + k)
  }

  /** The values the corrected decoder hands to u_replace_if_invalid. */
  function Decode(s: seq<byte>): (r: seq<nat>)
    ensures |r| <= |s| <= 4 * |r|
    ensures forall i :: 0 <= i < |r| ==> r[i] < 0x10000
    decreases |s|
  {
    if |s| == 0 then []
    else
      var step := DecodeStep(s);
      [step.value] + Decode(s[step.consumed..])
  }

  /** Every step of the corrected decoder starts at a lead of decodable width. */
  predicate DecodableLeads(s: seq<byte>)
    decreases |s|
  {
    |s| == 0 || (HasValidUtf8Width(LeadWidth(s[0])) && DecodableLeads(s[DecodeStep(s).consumed..]))
  }

  /** Where every step meets a decodable lead, the source and the correction agree. */
  lemma {:induction false} AsWrittenAgreesOnDecodableLeads(s: seq<byte>)
    requires DecodableLeads(s)
    ensures DecodeAsWritten(s) == Ok(Decode(s))
    decreases |s|
  {
    if |s| > 0 {
      AsWrittenAgreesOnDecodableLeads(s[DecodeStep(s).consumed..]);
    }
  }
}
