/** The CRC-32 that PNG chunks carry (`zlib.crc32(...) & 0xffffffff`):
    the reflected polynomial 0xEDB88320, register preset to all ones and
    complemented at the end, as fixed by section 5.5 of the PNG
    specification (ISO/IEC 15948). The register is a `bv32`, so the
    32-bit wrap-around of the shifts is the bit-vector semantics itself. */
module Crc {
  import opened Bytes

  const Polynomial: bv32 := 0xEDB8_8320

  /** One bit of polynomial division: shift right, and fold the polynomial
      in when the bit shifted out was set. */
  function ShiftBit(c: bv32): bv32
  {
    if c & 1 == 1 then (c >> 1) ^ Polynomial else c >> 1
  }

  /** `n` bit steps; eight of them are one byte's worth of division. */
  function ShiftBits(c: bv32, n: nat): bv32
    decreases n
  {
    if n == 0 then c else ShiftBits(ShiftBit(c), n - 1)
  }

  /** Feeds one byte into the register, low bit first. */
  function UpdateByte(c: bv32, b: Byte): bv32
  {
    ShiftBits(c ^ (b as bv32), 8)
  }

  /** Feeds `data` into the register, first byte first. */
  function Update(c: bv32, data: seq<Byte>): bv32
    decreases |data|
  {
    if |data| == 0 then c else Update(UpdateByte(c, data[0]), data[1..])
  }

  /** `zlib.crc32(data) & 0xffffffff`. */
  function Crc32(data: seq<Byte>): (r: nat)
    ensures r < 0x1_0000_0000
  {
    (Update(0xFFFF_FFFF, data) ^ 0xFFFF_FFFF) as nat
  }

  /** Feeding `a + b` is feeding `a`, then `b`; a chunk's CRC can be
      computed over its type and data piecewise. */
  lemma {:induction false} UpdateAppend(c: bv32, a: seq<Byte>, b: seq<Byte>)
    ensures Update(c, a + b) == Update(Update(c, a), b)
    decreases |a|
  {
    if |a| == 0 {
      assert a + b == b;
    } else {
      assert (a + b)[0] == a[0];
      assert (a + b)[1..] == a[1..] + b;
      UpdateAppend(UpdateByte(c, a[0]), a[1..], b);
    }
  }

  /** The CRC of the empty IEND chunk, which ends every PNG file. */
  lemma IendCrc()
    ensures Crc32([0x49, 0x45, 0x4E, 0x44]) == 0xAE42_6082
  {
    IendStep0();
    assert Update(0xFFFF_FFFF, [0x49, 0x45, 0x4E, 0x44]) == Update(0x22FD_E946, [0x45, 0x4E, 0x44]);
    IendStep1();
    assert Update(0x22FD_E946, [0x45, 0x4E, 0x44]) == Update(0x992B_AC53, [0x4E, 0x44]);
    IendStep2();
    assert Update(0x992B_AC53, [0x4E, 0x44]) == Update(0x639F_4775, [0x44]);
    IendStep3();
    assert Update(0x639F_4775, [0x44]) == Update(0x51BD_9F7D, []);
  }

  /** Register after the byte 'I' of the IEND tag. */
  lemma IendStep0()
    ensures UpdateByte(0xFFFF_FFFF, 0x49) == 0x22FD_E946
  {
    assert 0xFFFF_FFFF ^ (0x49 as bv32) == 0xFFFF_FFB6;
    assert ShiftBits(0xFFFF_FFB6, 8) == ShiftBits(0x7FFF_FFDB, 7);
    assert ShiftBits(0x7FFF_FFDB, 7) == ShiftBits(0xD247_7CCD, 6);
    assert ShiftBits(0xD247_7CCD, 6) == ShiftBits(0x849B_3D46, 5);
    assert ShiftBits(0x849B_3D46, 5) == ShiftBits(0x424D_9EA3, 4);
    assert ShiftBits(0x424D_9EA3, 4) == ShiftBits(0xCC9E_4C71, 3);
    assert ShiftBits(0xCC9E_4C71, 3) == ShiftBits(0x8BF7_A518, 2);
    assert ShiftBits(0x8BF7_A518, 2) == ShiftBits(0x45FB_D28C, 1);
    assert ShiftBits(0x45FB_D28C, 1) == ShiftBits(0x22FD_E946, 0);
  }

  /** Register after the byte 'E' of the IEND tag. */
  lemma IendStep1()
    ensures UpdateByte(0x22FD_E946, 0x45) == 0x992B_AC53
  {
    assert 0x22FD_E946 ^ (0x45 as bv32) == 0x22FD_E903;
    assert ShiftBits(0x22FD_E903, 8) == ShiftBits(0xFCC6_77A1, 7);
    assert ShiftBits(0xFCC6_77A1, 7) == ShiftBits(0x93DB_B8F0, 6);
    assert ShiftBits(0x93DB_B8F0, 6) == ShiftBits(0x49ED_DC78, 5);
    assert ShiftBits(0x49ED_DC78, 5) == ShiftBits(0x24F6_EE3C, 4);
    assert ShiftBits(0x24F6_EE3C, 4) == ShiftBits(0x127B_771E, 3);
    assert ShiftBits(0x127B_771E, 3) == ShiftBits(0x093D_BB8F, 2);
    assert ShiftBits(0x093D_BB8F, 2) == ShiftBits(0xE926_5EE7, 1);
    assert ShiftBits(0xE926_5EE7, 1) == ShiftBits(0x992B_AC53, 0);
  }

  /** Register after the byte 'N' of the IEND tag. */
  lemma IendStep2()
    ensures UpdateByte(0x992B_AC53, 0x4E) == 0x639F_4775
  {
    assert 0x992B_AC53 ^ (0x4E as bv32) == 0x992B_AC1D;
    assert ShiftBits(0x992B_AC1D, 8) == ShiftBits(0xA12D_552E, 7);
    assert ShiftBits(0xA12D_552E, 7) == ShiftBits(0x5096_AA97, 6);
    assert ShiftBits(0x5096_AA97, 6) == ShiftBits(0xC5F3_D66B, 5);
    assert ShiftBits(0xC5F3_D66B, 5) == ShiftBits(0x8F41_6815, 4);
    assert ShiftBits(0x8F41_6815, 4) == ShiftBits(0xAA18_372A, 3);
    assert ShiftBits(0xAA18_372A, 3) == ShiftBits(0x550C_1B95, 2);
    assert ShiftBits(0x550C_1B95, 2) == ShiftBits(0xC73E_8EEA, 1);
    assert ShiftBits(0xC73E_8EEA, 1) == ShiftBits(0x639F_4775, 0);
  }

  /** Register after the byte 'D' of the IEND tag. */
  lemma IendStep3()
    ensures UpdateByte(0x639F_4775, 0x44) == 0x51BD_9F7D
  {
    assert 0x639F_4775 ^ (0x44 as bv32) == 0x639F_4731;
    assert ShiftBits(0x639F_4731, 8) == ShiftBits(0xDC77_20B8, 7);
    assert ShiftBits(0xDC77_20B8, 7) == ShiftBits(0x6E3B_905C, 6);
    assert ShiftBits(0x6E3B_905C, 6) == ShiftBits(0x371D_C82E, 5);
    assert ShiftBits(0x371D_C82E, 5) == ShiftBits(0x1B8E_E417, 4);
    assert ShiftBits(0x1B8E_E417, 4) == ShiftBits(0xE07F_F12B, 3);
    assert ShiftBits(0xE07F_F12B, 3) == ShiftBits(0x9D87_7BB5, 2);
    assert ShiftBits(0x9D87_7BB5, 2) == ShiftBits(0xA37B_3EFA, 1);
    assert ShiftBits(0xA37B_3EFA, 1) == ShiftBits(0x51BD_9F7D, 0);
  }
}
