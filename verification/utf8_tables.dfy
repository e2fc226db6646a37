/**
 * The constant tables of the UTF-8 codec of base/unicode/utf8.cpp:
 * the per-class byte information, the lead-byte index, the replacement
 * bytes and the maximal decodable width.
 */
module Utf8Tables {

  /** An octet as the codec reads and writes it. */
  type byte = x: int | 0 <= x < 0x100

  /** Largest number of UTF-8 bytes the decoder turns into one code unit. */
  const MaxWidthUtf8: nat := 3

  /** The code unit a failed decoding produces (U+FFFD). */
  const ReplacementChar: nat := 0xFFFD

  /** The UTF-8 encoding of the replacement character. */
  const Utf8ReplacementBytes: seq<byte> := [0xEF, 0xBF, 0xBD]

  /** A width is decodable when it is between 1 and MaxWidthUtf8. */
  predicate HasValidUtf8Width(n: int)
  {
    0 < n <= MaxWidthUtf8
  }

  /** An inclusive range of integers. */
  datatype Range = Range(lo: int, hi: int)

  /**
   * One class of lead bytes: the sequence width, the mask applied to the
   * lead byte, the code points the class encodes and the well-formed range
   * of each of the (up to four) bytes of a sequence.
   */
  datatype ByteInfo = ByteInfo(width: nat, mask: byte, codepoints: Range, bytes: seq<Range>)

  const Utf8ByteInfo: seq<ByteInfo> := [
    ByteInfo(0, 0x00, Range(0x0000, 0x0000),
             [Range(0x0000, 0x0000), Range(0x0000, 0x0000), Range(0x0000, 0x0000), Range(0x0000, 0x0000)]),
    ByteInfo(1, 0x7f, Range(0x0000, 0x007F),
             [Range(0x0000, 0x007F), Range(0x0000, 0x0000), Range(0x0000, 0x0000), Range(0x0000, 0x0000)]),
    ByteInfo(2, 0x1f, Range(0x0080, 0x07FF),
             [Range(0x00C2, 0x00DF), Range(0x0080, 0x00BF), Range(0x0000, 0x0000), Range(0x0000, 0x0000)]),
    ByteInfo(3, 0x0f, Range(0x0080, 0x0FFF),
             [Range(0x00E0, 0x00E0), Range(0x00A0, 0x00BF), Range(0x0080, 0x00BF), Range(0x0000, 0x0000)]),
    ByteInfo(3, 0x0f, Range(0x1000, 0xCFFF),
             [Range(0x00E1, 0x00EC), Range(0x0080, 0x00BF), Range(0x0080, 0x00BF), Range(0x0000, 0x0000)]),
    ByteInfo(3, 0x0f, Range(0xD000, 0xD7FF),
             [Range(0x00ED, 0x00ED), Range(0x0080, 0x009F), Range(0x0080, 0x00BF), Range(0x0000, 0x0000)]),
    ByteInfo(3, 0x0f, Range(0xE000, 0xFFFF),
             [Range(0x00EE, 0x00EF), Range(0x0080, 0x00BF), Range(0x0080, 0x00BF), Range(0x0000, 0x0000)]),
    ByteInfo(4, 0x07, Range(0x10000, 0x3FFFF),
             [Range(0x00F0, 0x00F0), Range(0x0090, 0x00BF), Range(0x0080, 0x00BF), Range(0x0080, 0x00BF)]),
    ByteInfo(4, 0x07, Range(0x40000, 0xFFFFF),
             [Range(0x00F1, 0x00F3), Range(0x0080, 0x00BF), Range(0x0080, 0x00BF), Range(0x0080, 0x00BF)]),
    ByteInfo(4, 0x07, Range(0x100000, 0x10FFFF),
             [Range(0x00F4, 0x00F4), Range(0x0080, 0x00BF), Range(0x0080, 0x00BF), Range(0x0080, 0x00BF)])
  ]

  /**
   * For every byte value, the row of Utf8ByteInfo that describes it as a
   * lead byte; written as sixteen lines of sixteen entries, first byte value
   * of each line in its name.
   */
  const Utf8ByteInfoIndex: seq<nat> :=
    (((IndexLine000 + IndexLine016) + (IndexLine032 + IndexLine048)) + ((IndexLine064 + IndexLine080) + (IndexLine096 + IndexLine112)))
    + (((IndexLine128 + IndexLine144) + (IndexLine160 + IndexLine176)) + ((IndexLine192 + IndexLine208) + (IndexLine224 + IndexLine240)))

  const IndexLine000: seq<nat> := [1, 1, 1, 1, 1, 1, 1, 1, 1, 1, 1, 1, 1, 1, 1, 1]
  const IndexLine016: seq<nat> := [1, 1, 1, 1, 1, 1, 1, 1, 1, 1, 1, 1, 1, 1, 1, 1]
  const IndexLine032: seq<nat> := [1, 1, 1, 1, 1, 1, 1, 1, 1, 1, 1, 1, 1, 1, 1, 1]
  const IndexLine048: seq<nat> := [1, 1, 1, 1, 1, 1, 1, 1, 1, 1, 1, 1, 1, 1, 1, 1]
  const IndexLine064: seq<nat> := [1, 1, 1, 1, 1, 1, 1, 1, 1, 1, 1, 1, 1, 1, 1, 1]
  const IndexLine080: seq<nat> := [1, 1, 1, 1, 1, 1, 1, 1, 1, 1, 1, 1, 1, 1, 1, 1]
  const IndexLine096: seq<nat> := [1, 1, 1, 1, 1, 1, 1, 1, 1, 1, 1, 1, 1, 1, 1, 1]
  const IndexLine112: seq<nat> := [1, 1, 1, 1, 1, 1, 1, 1, 1, 1, 1, 1, 1, 1, 1, 1]
  const IndexLine128: seq<nat> := [0, 0, 0, 0, 0, 0, 0, 0, 0, 0, 0, 0, 0, 0, 0, 0]
  const IndexLine144: seq<nat> := [0, 0, 0, 0, 0, 0, 0, 0, 0, 0, 0, 0, 0, 0, 0, 0]
  const IndexLine160: seq<nat> := [0, 0, 0, 0, 0, 0, 0, 0, 0, 0, 0, 0, 0, 0, 0, 0]
  const IndexLine176: seq<nat> := [0, 0, 0, 0, 0, 0, 0, 0, 0, 0, 0, 0, 0, 0, 0, 0]
  const IndexLine192: seq<nat> := [0, 0, 2, 2, 2, 2, 2, 2, 2, 2, 2, 2, 2, 2, 2, 2]
  const IndexLine208: seq<nat> := [2, 2, 2, 2, 2, 2, 2, 2, 2, 2, 2, 2, 2, 2, 2, 2]
  const IndexLine224: seq<nat> := [3, 4, 4, 4, 4, 4, 4, 4, 4, 4, 4, 4, 4, 5, 6, 6]
  const IndexLine240: seq<nat> := [7, 8, 8, 8, 9, 0, 0, 0, 0, 0, 0, 0, 0, 0, 0, 0]

  lemma IndexTableQuarter0(b: byte)
    requires 0 <= b < 64
    ensures Utf8ByteInfoIndex[b] == LeadIndex(b)
  {
    if b < 16 {
      assert Utf8ByteInfoIndex[b] == IndexLine000[b - 0];
      assert IndexLine000[b - 0] == LeadIndex(b);
    } else if b < 32 {
      assert Utf8ByteInfoIndex[b] == IndexLine016[b - 16];
      assert IndexLine016[b - 16] == LeadIndex(b);
    } else if b < 48 {
      assert Utf8ByteInfoIndex[b] == IndexLine032[b - 32];
      assert IndexLine032[b - 32] == LeadIndex(b);
    } else {
      assert Utf8ByteInfoIndex[b] == IndexLine048[b - 48];
      assert IndexLine048[b - 48] == LeadIndex(b);
    }
  }

  lemma IndexTableQuarter1(b: byte)
    requires 64 <= b < 128
    ensures Utf8ByteInfoIndex[b] == LeadIndex(b)
  {
    if b < 80 {
      assert Utf8ByteInfoIndex[b] == IndexLine064[b - 64];
      assert IndexLine064[b - 64] == LeadIndex(b);
    } else if b < 96 {
      assert Utf8ByteInfoIndex[b] == IndexLine080[b - 80];
      assert IndexLine080[b - 80] == LeadIndex(b);
    } else if b < 112 {
      assert Utf8ByteInfoIndex[b] == IndexLine096[b - 96];
      assert IndexLine096[b - 96] == LeadIndex(b);
    } else {
      assert Utf8ByteInfoIndex[b] == IndexLine112[b - 112];
      assert IndexLine112[b - 112] == LeadIndex(b);
    }
  }

  lemma IndexTableQuarter2(b: byte)
    requires 128 <= b < 192
    ensures Utf8ByteInfoIndex[b] == LeadIndex(b)
  {
    if b < 144 {
      assert Utf8ByteInfoIndex[b] == IndexLine128[b - 128];
      assert IndexLine128[b - 128] == LeadIndex(b);
    } else if b < 160 {
      assert Utf8ByteInfoIndex[b] == IndexLine144[b - 144];
      assert IndexLine144[b - 144] == LeadIndex(b);
    } else if b < 176 {
      assert Utf8ByteInfoIndex[b] == IndexLine160[b - 160];
      assert IndexLine160[b - 160] == LeadIndex(b);
    } else {
      assert Utf8ByteInfoIndex[b] == IndexLine176[b - 176];
      assert IndexLine176[b - 176] == LeadIndex(b);
    }
  }

  lemma IndexTableQuarter3(b: byte)
    requires 192 <= b < 256
    ensures Utf8ByteInfoIndex[b] == LeadIndex(b)
  {
    if b < 208 {
      assert Utf8ByteInfoIndex[b] == IndexLine192[b - 192];
      assert IndexLine192[b - 192] == LeadIndex(b);
    } else if b < 224 {
      assert Utf8ByteInfoIndex[b] == IndexLine208[b - 208];
      assert IndexLine208[b - 208] == LeadIndex(b);
    } else if b < 240 {
      assert Utf8ByteInfoIndex[b] == IndexLine224[b - 224];
      assert IndexLine224[b - 224] == LeadIndex(b);
    } else {
      assert Utf8ByteInfoIndex[b] == IndexLine240[b - 240];
      assert IndexLine240[b - 240] == LeadIndex(b);
    }
  }

  /**
   * The index table of the source: every one of its 256 entries is the row
   * LeadIndex gives that byte.
   */
  lemma IndexTableLines(b: byte)
    ensures Utf8ByteInfoIndex[b] == LeadIndex(b)
  {
    if b < 64 {
      IndexTableQuarter0(b);
    } else if b < 128 {
      IndexTableQuarter1(b);
    } else if b < 192 {
      IndexTableQuarter2(b);
    } else {
      IndexTableQuarter3(b);
    }
  }

  /**
   * The row of Utf8ByteInfo for lead byte `b`: the entry of the index table
   * (IndexTableLines), written as the ranges of lead bytes that share a row.
   */
  function LeadIndex(b: byte): (i: nat)
    ensures i < |Utf8ByteInfo|
    ensures i == 0 <==> (0x80 <= b <= 0xC1 || 0xF5 <= b)
  {
    if b <= 0x7F then 1
    else if b <= 0xC1 then 0
    else if b <= 0xDF then 2
    else if b == 0xE0 then 3
    else if b <= 0xEC then 4
    else if b == 0xED then 5
    else if b <= 0xEF then 6
    else if b == 0xF0 then 7
    else if b <= 0xF3 then 8
    else if b == 0xF4 then 9
    else 0
  }

  /** Width of the sequence that lead byte `b` announces (0 for an invalid lead). */
  function LeadWidth(b: byte): (w: nat)
    ensures w <= 4
    ensures w == 0 <==> (0x80 <= b <= 0xC1 || 0xF5 <= b)
    ensures w == 1 <==> b <= 0x7F
    ensures w == 2 <==> 0xC2 <= b <= 0xDF
    ensures w == 3 <==> 0xE0 <= b <= 0xEF
    ensures w == 4 <==> 0xF0 <= b <= 0xF4
  {
    Utf8ByteInfo[LeadIndex(b)].width
  }

  /** Mask applied to lead byte `b` before continuation bits are shifted in. */
  function LeadMask(b: byte): (m: byte)
    ensures LeadWidth(b) == 1 ==> m == 0x7f
    ensures LeadWidth(b) == 2 ==> m == 0x1f
    ensures LeadWidth(b) == 3 ==> m == 0x0f
  {
    Utf8ByteInfo[LeadIndex(b)].mask
  }

  /**
   * `x & mask` for a mask of the form 2^k - 1, which every mask of the
   * decoder (0x7f, 0x1f, 0x0f, 0x3f) is: the low k bits of `x`.
   */
  function AndLowMask(x: byte, mask: byte): (r: byte)
    ensures r <= mask
  {
    ModBelow(x, mask + 1);
    x % (mask + 1)
  }

  lemma ModBelow(x: nat, m: nat)
    requires m > 0
    ensures 0 <= x % m < m
  {
  }

  /** 64 to the power `k`: the weight of the k-th group of six bits. */
  function Pow64(k: nat): (p: nat)
    ensures p >= 1
  {
    if k == 0 then 1 else 64 * Pow64(k - 1)
  }
}
