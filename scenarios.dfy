/** The self-test functions of `bitarray.c` replayed on the model: each lemma states, for
    the inputs a self-test uses, the value it expects. The class-level replays make the
    same calls on a `BitArray` and state the bytes the self-tests compare. */
module Scenarios {
  import opened Bytes
  import opened Layout
  import opened ShiftNormalizer
  import opened SingleByte
  import opened BitArrays

  /** `test_mod` and `test_get_shift`. */
  lemma ShiftChecks()
    ensures Modulo(16, 8) == 0 && Modulo(0, 8) == 0
    ensures GetShift(2, 10) == 0 && GetShift(5, 1) == 1
    ensures GetShift(5, -1) == 4 && GetShift(5, -7) == 3
  {
  }

  /** `test_get_char_index`, `test_get_end_char_index` and `test_get_end_bit`. */
  lemma IndexChecks()
    ensures CharIndex(7) == 0 && CharIndex(12) == 1 && CharIndex(15) == 1 && CharIndex(16) == 2
    ensures EndCharIndex(15, 1) == 1 && EndCharIndex(15, 2) == 2
    ensures EndCharIndex(15, 9) == 2 && EndCharIndex(15, 10) == 3
    ensures EndBit(0, 6) == 2 && EndBit(0, 9) == 7 && EndBit(0, 18) == 6 && EndBit(1, 9) == 6
  {
  }

  /** `test_clean_left` and `test_clean_right`. */
  lemma CleanChecks()
    ensures CleanLeft(0xFF, 1) == 0x7F && CleanLeft(0xFF, 6) == 0x03
    ensures CleanRight(0xFF, 1) == 0xFE && CleanRight(0xFF, 6) == 0xC0
  {
  }

  /** The bytes `rotate_single` computes in `test_bitarray_rotate`. */
  lemma SingleByteChecks()
    ensures RotateSingleByte(0x02, 0, 1, 1) == 0x01
    ensures RotateSingleByte(0x03, 0, 2, 1) == 0x21
    ensures RotateSingleByte(0x56, 2, 2, 1) == 0x6A
    ensures RotateSingleByte(0x56, 2, 0, 1) == 0xAA
    ensures RotateSingleByte(0x55, 0, 0, 3) == 0xAA
    ensures RotateSingleByte(0x55, 0, 0, 5) == 0xAA
  {
  }

  /** The bits of a two-byte buffer: the first byte's eight, then the second's. */
  lemma TwoBytes(x: bv8, y: bv8)
    ensures BitsOf([x, y]) == ByteBits(x) + ByteBits(y)
  {
    assert [x, y][..1] == [x];
    assert [x][..0] == [];
  }

  /** A one-byte buffer stands for that byte's eight bits. */
  lemma OneByte(x: bv8)
    ensures BitsOf([x]) == ByteBits(x)
  {
    assert [x][..0] == [];
  }

  /** The eight bits of a byte, each read with its own mask. */
  lemma ByteBitsByMask(x: bv8)
    ensures ByteBits(x) == [x & 0x01 != 0, x & 0x02 != 0, x & 0x04 != 0, x & 0x08 != 0,
                            x & 0x10 != 0, x & 0x20 != 0, x & 0x40 != 0, x & 0x80 != 0]
  {
    BitOfMask(x, 0); BitOfMask(x, 1); BitOfMask(x, 2); BitOfMask(x, 3);
    BitOfMask(x, 4); BitOfMask(x, 5); BitOfMask(x, 6); BitOfMask(x, 7);
  }

  /** `test_bitarray`: in a 16-bit array, setting bit 1 makes the first byte 2 and leaves
      the second 0; setting bit 14 then makes the second byte 64. */
  method SetReplay() returns (first: bv8, second: bv8, secondAfter: bv8)
    ensures first == 2 && second == 0 && secondAfter == 64
  {
    var ba := new BitArray(16);
    ba.Set(1, true);
    TwoBytes(0x02, 0x00);
    ByteBitsByMask(0x02);
    ByteBitsByMask(0x00);
    assert BitsOf([0x02, 0x00]) == ba.Bits();
    BitsOfInjective(ba.buf[..], [0x02, 0x00]);
    first, second := ba.buf[0], ba.buf[1];
    ba.Set(14, true);
    TwoBytes(0x02, 0x40);
    ByteBitsByMask(0x40);
    assert BitsOf([0x02, 0x40]) == ba.Bits();
    BitsOfInjective(ba.buf[..], [0x02, 0x40]);
    secondAfter := ba.buf[1];
  }

  /** `test_bitarray_rotate`, first array: seven bits with bit 1 set (byte 2). Rotating
      an empty range, a range past the end, by zero places or a one-bit range leaves the
      byte at 2; rotating bits 0 to 6 by one place makes it 1. */
  method RotateReplay() returns (r1: bv8, r2: bv8, r3: bv8, r4: bv8, r5: bv8)
    ensures r1 == 2 && r2 == 2 && r3 == 2 && r4 == 2 && r5 == 1
  {
    var ba := new BitArray(7);
    ba.Set(1, true);
    OneByte(0x02);
    ByteBitsByMask(0x02);
    BitsOfInjective(ba.buf[..], [0x02]);
    ba.Rotate(0, 0, 0);
    BitsOfInjective(ba.buf[..], [0x02]);
    r1 := ba.buf[0];
    ba.Rotate(0, 8, 1);
    BitsOfInjective(ba.buf[..], [0x02]);
    r2 := ba.buf[0];
    assert GetShift(7, 0) == 0;
    ba.Rotate(0, 7, 0);
    BitsOfInjective(ba.buf[..], [0x02]);
    r3 := ba.buf[0];
    ba.Rotate(0, 1, 1);
    BitsOfInjective(ba.buf[..], [0x02]);
    r4 := ba.buf[0];
    RotateFirstReplay(0x02);
    ba.Rotate(0, 7, 1);
    BitsOfInjective(ba.buf[..], [0x01]);
    r5 := ba.buf[0];
  }

  /** A rotation that acts rewrites the range's byte with `rotate_single`, its begin bit,
      end bit and shift being the ones `bitarray_rotate` computes. */
  lemma ByteRotation(bytes: seq<bv8>, bitSz: nat, offset: nat, length: nat, amount: int,
                     b: nat, e: nat, s: nat)
    requires bitSz <= |bytes| * 8 && offset + length <= bitSz
    requires length >= 2 && amount % length != 0 && offset % 8 + length <= 8
    requires b == offset % 8 && e == EndBit(offset, length) && s == GetShift(length, amount)
    ensures offset / 8 < |bytes| && b + s + e <= 8
    ensures RotateEffect(BitsOf(bytes), bitSz, offset, length, amount) ==
      BitsOf(bytes[offset / 8 := RotateSingleByte(bytes[offset / 8], b, e, s)])
  {
    RotateActsIff(bitSz, offset, length, amount);
    SingleBytePath(bytes, bitSz, offset, length, amount);
  }

  /** `rotate5`: bits 0 to 6 of a seven-bit array holding byte 2, rotated by one place. */
  lemma RotateFirstReplay(x: bv8)
    requires x == 0x02
    ensures RotateEffect(BitsOf([x]), 7, 0, 7, 1) == BitsOf([0x01])
  {
    assert GetShift(7, 1) == 1 && EndBit(0, 7) == 1;
    ByteRotation([x], 7, 0, 7, 1, 0, 1, 1);
    SingleByteChecks();
    assert [x][0 := 0x01] == [0x01];
  }

  /** `rotate6`: a six-bit array with bits 0 and 1 set (byte 3) rotated by one place over
      all six bits becomes byte 33. */
  method RotateSixReplay() returns (r: bv8)
    ensures r == 33
  {
    var ba := new BitArray(6);
    ba.Set(0, true);
    ba.Set(1, true);
    OneByte(0x03);
    ByteBitsByMask(0x03);
    BitsOfInjective(ba.buf[..], [0x03]);
    RotateSixBits(0x03);
    ba.Rotate(0, 6, 1);
    BitsOfInjective(ba.buf[..], [0x21]);
    r := ba.buf[0];
  }

  lemma RotateSixBits(x: bv8)
    requires x == 0x03
    ensures RotateEffect(BitsOf([x]), 6, 0, 6, 1) == BitsOf([0x21])
  {
    assert GetShift(6, 1) == 1 && EndBit(0, 6) == 2;
    ByteRotation([x], 6, 0, 6, 1, 0, 2, 1);
    SingleByteChecks();
    assert [x][0 := 0x21] == [0x21];
  }

  /** `rotate7`: byte 0x56 with bits 2 to 5 rotated by one place becomes 0x6A. */
  method RotateMiddleReplay() returns (r: bv8)
    ensures r == 0x6A
  {
    var ba := new BitArray(8);
    ba.buf[0] := 0x56;
    assert ba.buf[..] == [0x56];
    RotateMiddleBits(0x56);
    ba.Rotate(2, 4, 1);
    BitsOfInjective(ba.buf[..], [0x6A]);
    r := ba.buf[0];
  }

  lemma RotateMiddleBits(x: bv8)
    requires x == 0x56
    ensures RotateEffect(BitsOf([x]), 8, 2, 4, 1) == BitsOf([0x6A])
  {
    assert GetShift(4, 1) == 1 && EndBit(2, 4) == 2;
    ByteRotation([x], 8, 2, 4, 1, 2, 2, 1);
    SingleByteChecks();
    assert [x][0 := 0x6A] == [0x6A];
  }

  /** The second `rotate7`: byte 0x56 with bits 2 to 7 rotated by one place becomes 0xAA. */
  method RotateTopReplay() returns (r: bv8)
    ensures r == 0xAA
  {
    var ba := new BitArray(8);
    ba.buf[0] := 0x56;
    assert ba.buf[..] == [0x56];
    RotateTopBits(0x56);
    ba.Rotate(2, 6, 1);
    BitsOfInjective(ba.buf[..], [0xAA]);
    r := ba.buf[0];
  }

  lemma RotateTopBits(x: bv8)
    requires x == 0x56
    ensures RotateEffect(BitsOf([x]), 8, 2, 6, 1) == BitsOf([0xAA])
  {
    assert GetShift(6, 1) == 1 && EndBit(2, 6) == 0;
    ByteRotation([x], 8, 2, 6, 1, 2, 0, 1);
    SingleByteChecks();
    assert [x][0 := 0xAA] == [0xAA];
  }

  /** `rotate8`: in a sixteen-bit array whose second byte is 0x55, rotating that byte by
      11 places, or by -11, makes it 0xAA. */
  method RotateSecondByteReplay() returns (r1: bv8, r2: bv8)
    ensures r1 == 0xAA && r2 == 0xAA
  {
    var ba := new BitArray(16);
    ba.buf[1] := 0x55;
    assert ba.buf[..] == [0x00, 0x55];
    RotateSecondByteBits(0x00, 0x55);
    ba.Rotate(8, 8, 11);
    BitsOfInjective(ba.buf[..], [0x00, 0xAA]);
    r1 := ba.buf[1];
    var bb := new BitArray(16);
    bb.buf[1] := 0x55;
    assert bb.buf[..] == [0x00, 0x55];
    bb.Rotate(8, 8, -11);
    BitsOfInjective(bb.buf[..], [0x00, 0xAA]);
    r2 := bb.buf[1];
  }

  lemma RotateSecondByteBits(z: bv8, x: bv8)
    requires z == 0x00 && x == 0x55
    ensures RotateEffect(BitsOf([z, x]), 16, 8, 8, 11) == BitsOf([0x00, 0xAA])
    ensures RotateEffect(BitsOf([z, x]), 16, 8, 8, -11) == BitsOf([0x00, 0xAA])
  {
    assert GetShift(8, 11) == 3 && GetShift(8, -11) == 5 && EndBit(8, 8) == 0;
    ByteRotation([z, x], 16, 8, 8, 11, 0, 0, 3);
    ByteRotation([z, x], 16, 8, 8, -11, 0, 0, 5);
    SingleByteChecks();
    assert [z, x][1 := 0xAA] == [0x00, 0xAA];
  }
}
