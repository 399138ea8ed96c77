/**
 * The CRC-32/CKSUM checksum that both descriptor records embed (CRC RevEng
 * catalogue parameters: width 32, polynomial 0x04C11DB7, the IEEE 802.3
 * polynomial; initial register 0; input and output not reflected; final XOR
 * 0xFFFFFFFF), computed bit by bit, most significant bit first.
 *
 * The library takes this algorithm from the `crc` crate. Nothing else in the
 * model depends on how Crc32 is computed, only on its being a function of
 * the bytes it is given.
 */
module Crc32Cksum {
  import opened ByteLayout

  const POLY: bv32 := 0x04C1_1DB7
  const INIT: bv32 := 0
  const XOROUT: bv32 := 0xFFFF_FFFF

  /** One shift of the register: the top bit leaves and, when it was set, POLY is fed back. */
  function Step(reg: bv32): (next: bv32)
  {
    if reg & 0x8000_0000 != 0 then (reg << 1) ^ POLY else reg << 1
  }

  /** k shifts of the register. */
  function Shift(reg: bv32, k: nat): (shifted: bv32)
    decreases k
  {
    if k == 0 then reg else Shift(Step(reg), k - 1)
  }

  /** Absorbs one byte, placed in the top eight bits of the register, with eight shifts. */
  function AbsorbByte(reg: bv32, b: bv8): (next: bv32)
  {
    Shift(reg ^ ((b as bv32) << 24), 8)
  }

  /** The register after absorbing `data` from left to right. */
  function Update(reg: bv32, data: seq<bv8>): (final: bv32)
    decreases |data|, 1
  {
    if data == [] then reg
    else AbsorbBits(reg ^ ((data[0] as bv32) << 24), data, 8)
  }

  /**
   * The last k shifts of absorbing data[0], then the rest of data: the
   * bit-level loop inside Update.
   */
  function AbsorbBits(reg: bv32, data: seq<bv8>, k: nat): (final: bv32)
    requires data != []
    decreases |data|, 0, k
  {
    if k == 0 then Update(reg, data[1..]) else AbsorbBits(Step(reg), data, k - 1)
  }

  lemma {:induction false} AbsorbBitsShift(reg: bv32, data: seq<bv8>, k: nat)
    requires data != []
    ensures AbsorbBits(reg, data, k) == Update(Shift(reg, k), data[1..])
    decreases k
  {
    if k > 0 {
      AbsorbBitsShift(Step(reg), data, k - 1);
    }
  }

  /** The checksum of a bit string of bytes. */
  function Checksum(data: seq<bv8>): (crc: bv32)
  {
    Update(INIT, data) ^ XOROUT
  }

  /** The checksum of a byte string, as the 32-bit value the records store. */
  function Crc32(data: seq<u8>): (crc: u32)
    ensures data == [] ==> crc == 0xFFFF_FFFF
  {
    var c := Checksum(seq(|data|, i requires 0 <= i < |data| => data[i] as bv8));
    BvRoundTrip(c);
    c as u32
  }

  /** Feeding a message in two pieces gives the register of feeding it whole (the crate's Digest). */
  lemma {:induction false} UpdateConcat(reg: bv32, a: seq<bv8>, b: seq<bv8>)
    ensures Update(reg, a + b) == Update(Update(reg, a), b)
    decreases a
  {
    if a == [] {
      assert a + b == b;
    } else {
      var mixed := reg ^ ((a[0] as bv32) << 24);
      assert (a + b)[1..] == a[1..] + b;
      AbsorbBitsShift(mixed, a + b, 8);
      AbsorbBitsShift(mixed, a, 8);
      UpdateConcat(Shift(mixed, 8), a[1..], b);
    }
  }

  /** Absorbing a byte string one byte at a time. */
  lemma UpdateByte(reg: bv32, b: bv8, data: seq<bv8>, next: bv32)
    requires data != [] && data[0] == b
    requires AbsorbByte(reg, b) == next
    ensures Update(reg, data) == Update(next, data[1..])
  {
    AbsorbBitsShift(reg ^ ((b as bv32) << 24), data, 8);
  }

  /** The catalogue's check value: the checksum of the ASCII string "123456789". */
  lemma CheckValue()
    ensures Checksum([0x31, 0x32, 0x33, 0x34, 0x35, 0x36, 0x37, 0x38, 0x39]) == 0x765E_7680
  {
    CheckRegister([0x31, 0x32, 0x33, 0x34, 0x35, 0x36, 0x37, 0x38, 0x39]);
  }

  lemma CheckRegister(msg: seq<bv8>)
    requires msg == [0x31, 0x32, 0x33, 0x34, 0x35, 0x36, 0x37, 0x38, 0x39]
    ensures Update(INIT, msg) == 0x89A1_897F
  {
    assert AbsorbByte(0x0000_0000, 0x31) == 0xD0F3_7027;
    UpdateByte(0x0000_0000, 0x31, msg, 0xD0F3_7027);
    assert AbsorbByte(0xD0F3_7027, 0x32) == 0x3F5B_3A17;
    UpdateByte(0xD0F3_7027, 0x32, msg[1..], 0x3F5B_3A17);
    assert AbsorbByte(0x3F5B_3A17, 0x33) == 0x6E36_8C64;
    UpdateByte(0x3F5B_3A17, 0x33, msg[2..], 0x6E36_8C64);
    assert msg[1..][1..] == msg[2..] && msg[2..][1..] == msg[3..];
    CheckRegisterMiddle(msg[3..]);
  }

  lemma CheckRegisterMiddle(msg: seq<bv8>)
    requires msg == [0x34, 0x35, 0x36, 0x37, 0x38, 0x39]
    ensures Update(0x6E36_8C64, msg) == 0x89A1_897F
  {
    assert AbsorbByte(0x6E36_8C64, 0x34) == 0x6191_19D1;
    UpdateByte(0x6E36_8C64, 0x34, msg, 0x6191_19D1);
    assert AbsorbByte(0x6191_19D1, 0x35) == 0xFA8A_0CDB;
    UpdateByte(0x6191_19D1, 0x35, msg[1..], 0xFA8A_0CDB);
    assert AbsorbByte(0xFA8A_0CDB, 0x36) == 0xE28A_D0FD;
    UpdateByte(0xFA8A_0CDB, 0x36, msg[2..], 0xE28A_D0FD);
    assert msg[1..][1..] == msg[2..] && msg[2..][1..] == msg[3..];
    CheckRegisterTail(msg[3..]);
  }

  lemma CheckRegisterTail(msg: seq<bv8>)
    requires msg == [0x37, 0x38, 0x39]
    ensures Update(0xE28A_D0FD, msg) == 0x89A1_897F
  {
    assert AbsorbByte(0xE28A_D0FD, 0x37) == 0x8C8E_DD82;
    UpdateByte(0xE28A_D0FD, 0x37, msg, 0x8C8E_DD82);
    assert AbsorbByte(0x8C8E_DD82, 0x38) == 0x20E7_79A2;
    UpdateByte(0x8C8E_DD82, 0x38, msg[1..], 0x20E7_79A2);
    assert AbsorbByte(0x20E7_79A2, 0x39) == 0x89A1_897F;
    UpdateByte(0x20E7_79A2, 0x39, msg[2..], 0x89A1_897F);
    assert msg[1..][1..] == msg[2..] && msg[2..][1..] == [];
  }

  /**
   * The checksum of a record's byte image without its trailing 4-byte CRC
   * field, computed as the firmware does: the covered bytes are first copied
   * into a local buffer, then checksummed.
   */
  method ChecksumWithoutTrailingCrc(image: seq<u8>) returns (crc: u32)
    requires |image| >= 4
    ensures crc == Crc32(image[..|image| - 4])
  {
    var withoutCrc := new u8[|image| - 4];
    var i := 0;
    while i < withoutCrc.Length
      invariant 0 <= i <= withoutCrc.Length
      invariant withoutCrc[..i] == image[..i]
    {
      withoutCrc[i] := image[i];
      i := i + 1;
    }
    assert withoutCrc[..] == withoutCrc[..i];
    crc := Crc32(withoutCrc[..]);
  }
}
