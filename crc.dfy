/**
 * phCrcCalc: the table-driven 16-bit CRC of Kermit's type-3 block check,
 * that is CRC-CCITT (polynomial x^16 + x^12 + x^5 + 1 of ITU-T V.41)
 * processed least-significant bit first, i.e. with the reflected
 * polynomial 0x8408.
 *
 * The running value is a C `long` (modelled as a 64-bit pattern); each
 * character is folded in with two 16-entry nibble tables.
 */
module Crc {

  /** `crcta` of the source: the contribution of the high nibble. */
  const TableA: seq<bv64> := [
    0x0000, 0x1081, 0x2102, 0x3183, 0x4204, 0x5285, 0x6306, 0x7387,
    0x8408, 0x9489, 0xA50A, 0xB58B, 0xC60C, 0xD68D, 0xE70E, 0xF78F
  ]

  /** `crctb` of the source: the contribution of the low nibble. */
  const TableB: seq<bv64> := [
    0x0000, 0x1189, 0x2312, 0x329B, 0x4624, 0x57AD, 0x6536, 0x74BF,
    0x8C48, 0x9DC1, 0xAF5A, 0xBED3, 0xCA6C, 0xDBE5, 0xE97E, 0xF8F7
  ]

  /** `crc >> 8` on a signed `long`: an arithmetic shift, as C compilers implement it. */
  function ShiftRight8(x: bv64): bv64
  {
    if x >> 63 == 1 then (x >> 8) | 0xFF00_0000_0000_0000 else x >> 8
  }

  /**
   * One turn of the loop body: `c = crc ^ (long)*ptr;
   * crc = (crc >> 8) ^ (crcta[(c & 0xF0) >> 4] ^ crctb[c & 0x0F])`.
   * Only the low byte of `c` is used, so whether `char` is signed does not
   * matter; the character is taken as its 8-bit pattern.
   */
  function Step(crc: bv64, ch: bv8): bv64
  {
    var c := crc ^ (ch as bv64);
    ShiftRight8(crc) ^ (TableA[((c & 0xF0) >> 4) as int] ^ TableB[(c & 0x0F) as int])
  }

  /** The CRC of a whole buffer: the steps applied to its characters in order. */
  function CrcOf(crc: bv64, buff: seq<bv8>): bv64
    decreases |buff|
  {
    if buff == [] then crc else Step(CrcOf(crc, buff[..|buff| - 1]), buff[|buff| - 1])
  }

  /**
   * phCrcCalc(crc, buff, n): fold the first n characters of buff into crc.
   * The loop runs `ptr` from `buff` to `buff + n`, so n must lie within the buffer.
   */
  method PhCrcCalc(crc: bv64, buff: seq<bv8>, n: int) returns (r: bv64)
    requires 0 <= n <= |buff|
    ensures r == CrcOf(crc, buff[..n])
    ensures n == 0 ==> r == crc
    ensures crc < 0x1_0000 ==> r < 0x1_0000
  {
    r := crc;
    var i := 0;
    while i != n
      invariant 0 <= i <= n
      invariant r == CrcOf(crc, buff[..i])
      invariant crc < 0x1_0000 ==> r < 0x1_0000
    {
      assert buff[..i + 1][..i] == buff[..i];
      StepKeeps16Bits(r, buff[i]);
      r := Step(r, buff[i]);
      i := i + 1;
    }
  }

  /** A 16-bit running value stays a 16-bit value after one character. */
  lemma StepKeeps16Bits(crc: bv64, ch: bv8)
    ensures crc < 0x1_0000 ==> Step(crc, ch) < 0x1_0000
  {
    var c := crc ^ (ch as bv64);
    var hi := ((c & 0xF0) >> 4) as int;
    var lo := (c & 0x0F) as int;
    assert TableA[hi] < 0x1_0000 && TableB[lo] < 0x1_0000;
  }

  /** From a 16-bit start value, the CRC of any buffer is a 16-bit value. */
  lemma {:induction false} CrcOfKeeps16Bits(crc: bv64, buff: seq<bv8>)
    requires crc < 0x1_0000
    ensures CrcOf(crc, buff) < 0x1_0000
    decreases |buff|
  {
    if buff != [] {
      CrcOfKeeps16Bits(crc, buff[..|buff| - 1]);
      StepKeeps16Bits(CrcOf(crc, buff[..|buff| - 1]), buff[|buff| - 1]);
    }
  }

  /**
   * Building up a CRC over several calls, as the source's comment shows:
   * feeding buff0 and then buff1 equals feeding their concatenation.
   */
  lemma {:induction false} CrcOfConcat(crc: bv64, buff0: seq<bv8>, buff1: seq<bv8>)
    ensures CrcOf(CrcOf(crc, buff0), buff1) == CrcOf(crc, buff0 + buff1)
    decreases |buff1|
  {
    if buff1 == [] {
      assert buff0 + buff1 == buff0;
    } else {
      var init := buff1[..|buff1| - 1];
      CrcOfConcat(crc, buff0, init);
      assert (buff0 + buff1)[..|buff0 + buff1| - 1] == buff0 + init;
    }
  }

}
