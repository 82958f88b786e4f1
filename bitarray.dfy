/** The packed bit array (`struct bitarray`): `bitSz` bits stored eight to a byte
    in a buffer of `ceil(bitSz / 8)` bytes, logical bit `i` being bit `i % 8` of
    byte `i / 8`. Point access, the masked rotation `bitarray_rotate` (which only
    acts on a range inside one byte) and the bit-by-bit rotation `bitarray_rotate_old`.
    Every operation is specified against the ghost sequence of all bits of the buffer. */
module BitArrays {
  import opened ModArith
  import opened Bytes
  import opened Layout
  import opened ShiftNormalizer
  import opened SingleByte
  import opened Rotation

  // ---- what the masked rotation does, on the bits ----

  /** The conditions under which `bitarray_rotate` applies the rotation, that is, rewrites
      the range's byte: the range lies in the array, has at least two bits, the reduced
      shift is not zero, and the first and last bits of the range are in the same byte.
      The rewritten byte can still equal the old one, as for a range of equal bits. */
  predicate RotateActs(bitSz: nat, offset: nat, length: nat, amount: int)
  {
    offset + length <= bitSz && length >= 2 && GetShift(length, amount) != 0 &&
    CharIndex(offset) == EndCharIndex(offset, length)
  }

  /** The same conditions in plain arithmetic. */
  lemma RotateActsIff(bitSz: nat, offset: nat, length: nat, amount: int)
    ensures RotateActs(bitSz, offset, length, amount) <==>
      offset + length <= bitSz && length >= 2 && amount % length != 0 && offset % 8 + length <= 8
  {
    if length >= 2 {
      var c := offset / 8;
      assert offset == c * 8 + offset % 8;
      if offset % 8 + length <= 8 {
        assert c * 8 <= offset + length - 1 < c * 8 + 8;
        assert CharIndex(offset + length - 1) == c by {
          ModUnique(offset + length - 1, 8, c, offset % 8 + length - 1);
        }
      }
    }
  }

  /** The bits after `bitarray_rotate(offset, length, amount)`: the range rotated left by
      `amount` (range position `j` moves to `(j - amount) mod length`) when the rotation
      acts, the bits unchanged otherwise. */
  function RotateEffect(bits: seq<bool>, bitSz: nat, offset: nat, length: nat, amount: int): (r: seq<bool>)
    requires bitSz <= |bits|
    ensures |r| == |bits|
  {
    if RotateActs(bitSz, offset, length, amount) then RotateRange(bits, offset, length, amount) else bits
  }

  /** The masked rotation acts for `amount` exactly when it acts for `-amount`. */
  lemma RotateActsNegated(bitSz: nat, offset: nat, length: nat, amount: int)
    ensures RotateActs(bitSz, offset, length, amount) == RotateActs(bitSz, offset, length, -amount)
  {
    RotateActsIff(bitSz, offset, length, amount);
    RotateActsIff(bitSz, offset, length, -amount);
    if length > 0 && amount % length == 0 {
      ModUnique(-amount, length, -(amount / length), 0);
    }
    if length > 0 && (-amount) % length == 0 {
      ModUnique(amount, length, -((-amount) / length), 0);
    }
  }

  /** Rotating by `amount` and then by `-amount` restores the bits. */
  lemma RotateEffectUndo(bits: seq<bool>, bitSz: nat, offset: nat, length: nat, amount: int)
    requires bitSz <= |bits|
    ensures RotateEffect(RotateEffect(bits, bitSz, offset, length, amount), bitSz, offset, length, -amount) == bits
  {
    RotateActsNegated(bitSz, offset, length, amount);
    if RotateActs(bitSz, offset, length, amount) {
      RotateRangeInverse(bits, offset, length, amount);
    }
  }

  /** Rotating by a whole number of turns of the range changes nothing. */
  lemma RotateWholeTurns(bits: seq<bool>, bitSz: nat, offset: nat, length: nat, m: int)
    requires bitSz <= |bits|
    ensures RotateEffect(bits, bitSz, offset, length, m * length) == bits
  {
    if length > 0 {
      ModAddMultiple(0, m, length);
      assert !RotateActs(bitSz, offset, length, m * length);
    }
  }

  /** When it acts, the masked rotation agrees with the naive one (`bitarray_rotate_left`)
      run for `get_shift(length, amount)` single steps. */
  lemma MaskedIsNaive(bits: seq<bool>, bitSz: nat, offset: nat, length: nat, amount: int)
    requires bitSz <= |bits|
    requires RotateActs(bitSz, offset, length, amount)
    ensures RotateEffect(bits, bitSz, offset, length, amount) ==
      RangeSteps(bits, offset, length, GetShift(length, amount))
  {
    var s := GetShift(length, amount);
    ModOfSmall(s, length);
    RangeStepsModulo(bits, offset, length, s, amount);
  }

  /** The bits after `bitarray_rotate_old(offset, length, amount)`: the range put through
      `modulo(-amount, length)` single steps, that count being `(-amount) % length`;
      nothing changes for an empty range. */
  function RotateOldEffect(bits: seq<bool>, offset: nat, length: nat, amount: int): (r: seq<bool>)
    requires offset + length <= |bits|
    ensures |r| == |bits|
  {
    if length == 0 then bits
    else RangeSteps(bits, offset, length, (-amount) % length)
  }

  /** `bitarray_rotate_old` rotates the range right by `amount`: range position `j` moves
      to `(j + amount) mod length`. */
  lemma RotateOldIsRotateRight(bits: seq<bool>, offset: nat, length: nat, amount: int)
    requires offset + length <= |bits|
    ensures RotateOldEffect(bits, offset, length, amount) == RotateRange(bits, offset, length, -amount)
  {
    if length > 0 {
      var k := (-amount) % length;
      assert k % length == (-amount) % length by {
        ModOfSmall(k, length);
      }
      RangeStepsModulo(bits, offset, length, k, -amount);
    } else {
      assert bits[offset..offset] == [];
    }
  }

  /** `bitarray_rotate_old` with the same signed amount turns the other way: run after
      the masked rotation, whenever that rotation acts, it restores the bits. */
  lemma OldUndoesMasked(bits: seq<bool>, bitSz: nat, offset: nat, length: nat, amount: int)
    requires bitSz <= |bits|
    requires RotateActs(bitSz, offset, length, amount)
    ensures RotateOldEffect(RotateEffect(bits, bitSz, offset, length, amount), offset, length, amount) == bits
  {
    RotateOldIsRotateRight(RotateEffect(bits, bitSz, offset, length, amount), offset, length, amount);
    RotateRangeInverse(bits, offset, length, amount);
  }

  // ---- the single-byte rotation, on the bits of a buffer ----

  /** Writing the byte `rotate_single` computes rotates the bits of the range inside that
      byte and changes no other bit of the buffer. */
  lemma RotateSingleBits(bytes: seq<bv8>, nbytes: seq<bv8>, ci: nat, b: nat, e: nat, s: nat, off: nat, len: nat)
    requires ci < |bytes| && b + s + e <= 8 && off == 8 * ci + b && len == 8 - b - e
    requires nbytes == bytes[ci := RotateSingleByte(bytes[ci], b, e, s)]
    ensures BitsOf(nbytes) == RotateRange(BitsOf(bytes), off, len, s)
  {
    RotateSingleBitsAt(bytes, nbytes, ci, b, e, s, off, len);
    RotateRangeExt(BitsOf(bytes), off, len, s, BitsOf(nbytes));
  }

  lemma RotateSingleBitsAt(bytes: seq<bv8>, nbytes: seq<bv8>, ci: nat, b: nat, e: nat, s: nat, off: nat, len: nat)
    requires ci < |bytes| && b + s + e <= 8 && off == 8 * ci + b && len == 8 - b - e
    requires nbytes == bytes[ci := RotateSingleByte(bytes[ci], b, e, s)]
    ensures forall p | 0 <= p < |bytes| * 8 :: RotatedAt(BitsOf(bytes), BitsOf(nbytes), off, len, s, p)
  {
    forall p | 0 <= p < |bytes| * 8
      ensures RotatedAt(BitsOf(bytes), BitsOf(nbytes), off, len, s, p)
    {
      RotateSingleBitAt(bytes, nbytes, ci, b, e, s, off, len, p);
    }
  }

  lemma RotateSingleBitAt(bytes: seq<bv8>, nbytes: seq<bv8>, ci: nat, b: nat, e: nat, s: nat,
                          off: nat, len: nat, p: nat)
    requires ci < |bytes| && b + s + e <= 8 && off == 8 * ci + b && len == 8 - b - e
    requires nbytes == bytes[ci := RotateSingleByte(bytes[ci], b, e, s)]
    requires p < |bytes| * 8
    ensures RotatedAt(BitsOf(bytes), BitsOf(nbytes), off, len, s, p)
  {
    var bits := BitsOf(bytes);
    var nbits := BitsOf(nbytes);
    var q, k := SplitIndex(p);
    if q == ci && b <= k < 8 - e {
      RotateSingleBitInside(bytes, ci, b, e, s, k);
      RotatedIndex(bits, nbits, ci, b, e, s, off, len, k, p);
    } else {
      RotateSingleBitOutside(bytes, ci, b, e, s, q, k);
      KeptIndex(bits, nbits, ci, b, e, s, off, len, q, k, p);
    }
  }

  /** Index bookkeeping for `RotateSingleBitAt`, kept apart from the buffer's definition. */
  lemma RotatedIndex(bits: seq<bool>, nbits: seq<bool>, ci: nat, b: nat, e: nat, s: nat,
                     off: nat, len: nat, k: nat, p: nat)
    requires b + s + e <= 8 && b <= k < 8 - e && p == 8 * ci + k && 8 * ci + 8 <= |bits| == |nbits|
    requires off == 8 * ci + b && len == 8 - b - e
    requires nbits[8 * ci + k] == bits[8 * ci + b + (k - b + s) % (8 - b - e)]
    ensures RotatedAt(bits, nbits, off, len, s, p)
  {
  }

  lemma KeptIndex(bits: seq<bool>, nbits: seq<bool>, ci: nat, b: nat, e: nat, s: nat,
                  off: nat, len: nat, q: nat, k: nat, p: nat)
    requires b + e <= 8 && k < 8 && p == 8 * q + k && p < |bits| == |nbits| && 8 * ci + 8 <= |bits|
    requires off == 8 * ci + b && len == 8 - b - e
    requires !(q == ci && b <= k < 8 - e)
    requires nbits[8 * q + k] == bits[8 * q + k]
    ensures RotatedAt(bits, nbits, off, len, s, p)
  {
  }

  lemma RotateSingleBitOutside(bytes: seq<bv8>, ci: nat, b: nat, e: nat, s: nat, q: nat, k: nat)
    requires ci < |bytes| && b + s + e <= 8 && q < |bytes| && k < 8
    requires !(q == ci && b <= k < 8 - e)
    ensures 8 * q + k < |bytes| * 8
    ensures BitsOf(bytes[ci := RotateSingleByte(bytes[ci], b, e, s)])[8 * q + k] == BitsOf(bytes)[8 * q + k]
  {
    var c := bytes[ci];
    BitsOfAtPos(bytes[ci := RotateSingleByte(c, b, e, s)], q, k);
    BitsOfAtPos(bytes, q, k);
    if q == ci {
      RotatedBitAt(c, b, e, s, k, RotateSingleByte(c, b, e, s));
    }
  }

  lemma RotateSingleBitInside(bytes: seq<bv8>, ci: nat, b: nat, e: nat, s: nat, k: nat)
    requires ci < |bytes| && b + s + e <= 8
    requires b <= k < 8 - e
    ensures 8 * ci + k < |bytes| * 8
    ensures BitsOf(bytes[ci := RotateSingleByte(bytes[ci], b, e, s)])[8 * ci + k] ==
      BitsOf(bytes)[8 * ci + b + (k - b + s) % (8 - b - e)]
  {
    var c := bytes[ci];
    RotatedBitAt(c, b, e, s, k, RotateSingleByte(c, b, e, s));
    MovedBitInside(bytes, ci, RotateSingleByte(c, b, e, s), b, e, s, k);
  }

  /** A byte whose bit `k` is range bit `(k - b + s) mod length` of the old byte moves
      that bit of the buffer to position `8 * ci + k`. */
  lemma MovedBitInside(bytes: seq<bv8>, ci: nat, nb: bv8, b: nat, e: nat, s: nat, k: nat)
    requires ci < |bytes| && b + s + e <= 8
    requires b <= k < 8 - e
    requires BitOf(nb, k) == BitOf(bytes[ci], b + (k - b + s) % (8 - b - e))
    ensures 8 * ci + k < |bytes| * 8
    ensures BitsOf(bytes[ci := nb])[8 * ci + k] == BitsOf(bytes)[8 * ci + b + (k - b + s) % (8 - b - e)]
  {
    var x := (k - b + s) % (8 - b - e);
    ModInRange(k - b + s, 8 - b - e);
    BitsOfMoveBit(bytes, ci, nb, k, b + x);
    assert 8 * ci + b + x == 8 * ci + (b + x);
  }

  /** The path `bitarray_rotate` takes when it acts: rewriting the range's byte with the
      masked rotation by `get_shift(length, amount)` has the effect `RotateEffect` describes. */
  lemma SingleBytePath(bytes: seq<bv8>, bitSz: nat, offset: nat, length: nat, amount: int)
    requires bitSz <= |bytes| * 8 && RotateActs(bitSz, offset, length, amount)
    ensures offset / 8 < |bytes|
    ensures offset % 8 + GetShift(length, amount) + EndBit(offset, length) <= 8
    ensures BitsOf(bytes[offset / 8 := RotateSingleByte(bytes[offset / 8], offset % 8,
        EndBit(offset, length), GetShift(length, amount))]) ==
      RotateEffect(BitsOf(bytes), bitSz, offset, length, amount)
  {
    var shift := GetShift(length, amount);
    var e := EndBit(offset, length);
    SingleByteWidths(offset, length);
    var ci, b := SplitIndex(offset);
    ModUnique(offset, 8, ci, b);
    RotateSingleBits(bytes, bytes[ci := RotateSingleByte(bytes[ci], b, e, shift)], ci, b, e, shift, offset, length);
    ModOfSmall(shift, length);
    RotateRangeModulo(BitsOf(bytes), offset, length, shift, amount);
  }

  // ---- writing one bit ----

  /** `bitarray_set`'s byte rewrite changes bit `i` of the buffer to `v` and no other bit. */
  lemma BitsOfSetBit(bytes: seq<bv8>, i: nat, v: bool)
    requires i < |bytes| * 8
    ensures i / 8 < |bytes|
    ensures BitsOf(bytes[i / 8 := SetBit(bytes[i / 8], i, v)]) == BitsOf(bytes)[i := v]
  {
    var qi, ki := SplitIndex(i);
    ModUnique(i, 8, qi, ki);
    var nbytes := bytes[qi := SetBit(bytes[qi], i, v)];
    forall p | 0 <= p < |bytes| * 8
      ensures BitsOf(nbytes)[p] == BitsOf(bytes)[i := v][p]
    {
      var q, k := SplitIndex(p);
      BitsOfAtPos(nbytes, q, k);
      BitsOfAtPos(bytes, q, k);
    }
  }

  // ---- the bit array ----

  class BitArray {
    /** The number of bits the array holds; it need not be a multiple of 8. */
    const bitSz: nat
    /** The bytes holding the bits, eight per byte. */
    const buf: array<bv8>

    ghost predicate Valid()
      reads this
    {
      buf.Length == ByteCount(bitSz)
    }

    /** Every bit of the buffer, the padding bits of the last byte included. */
    ghost function Bits(): (bits: seq<bool>)
      reads this, buf
    {
      BitsOf(buf[..])
    }

    /** The `bitSz` bits the array stands for. */
    ghost function View(): (view: seq<bool>)
      reads this, buf
      requires Valid()
    {
      Bits()[..bitSz]
    }

    /** `bitarray_new`: a zero-filled buffer of `ceil(n / 8)` bytes, so every bit is clear. */
    constructor (n: nat)
      ensures Valid() && bitSz == n && fresh(buf)
      ensures buf.Length == n / 8 + (if n % 8 == 0 then 0 else 1)
      ensures buf[..] == seq(buf.Length, _ => 0)
      ensures Bits() == seq(buf.Length * 8, _ => false)
      ensures View() == seq(n, _ => false)
    {
      bitSz := n;
      buf := new bv8[ByteCount(n)](_ => 0);
      new;
      BitsOfZeros(buf[..]);
    }

    /** `bitarray_get`: bit `i % 8` of byte `i / 8`, read through `bitmask(i)`. */
    method Get(i: nat) returns (b: bool)
      requires Valid() && i < bitSz
      ensures b == View()[i]
    {
      MaskTest(buf[i / 8], i);
      BitsOfAt(buf[..], i);
      b := buf[i / 8] & Bitmask(i) != 0;
    }

    /** `bitarray_set`: rewrites byte `i / 8` so that bit `i` becomes `v`; every other bit of
        the buffer, padding included, is kept. */
    method Set(i: nat, v: bool)
      requires Valid() && i < bitSz
      modifies buf
      ensures Bits() == old(Bits())[i := v]
      ensures View() == old(View())[i := v]
    {
      ghost var bytes := buf[..];
      buf[i / 8] := SetBit(buf[i / 8], i, v);
      assert buf[..] == bytes[i / 8 := SetBit(bytes[i / 8], i, v)];
      BitsOfSetBit(bytes, i, v);
      assert Bits()[..bitSz] == old(Bits())[..bitSz][i := v];
    }

    /** `rotate_single`: replaces byte `charIndex` with its masked rotation. */
    method RotateSingle(charIndex: nat, beginBit: nat, endBit: nat, shiftBit: nat)
      requires Valid() && charIndex < buf.Length && beginBit + shiftBit + endBit <= 8
      modifies buf
      ensures buf[..] == old(buf[..])[charIndex := RotateSingleByte(old(buf[charIndex]), beginBit, endBit, shiftBit)]
    {
      buf[charIndex] := RotateSingleByte(buf[charIndex], beginBit, endBit, shiftBit);
    }

    /** `bitarray_rotate`: rotates a range that lies inside one byte; returns without
        change for a range outside the array, a length of 0 or 1, a shift that reduces to
        0, and a range spanning two or more bytes. */
    method Rotate(offset: nat, length: nat, amount: int)
      requires Valid()
      modifies buf
      ensures Bits() == RotateEffect(old(Bits()), bitSz, offset, length, amount)
    {
      if offset + length > bitSz {
        return;
      }
      if length == 0 || length == 1 {
        return;
      }
      var shift := GetShift(length, amount);
      if shift == 0 {
        return;
      }
      var shiftBit := shift % 8;
      var beginCharIndex := CharIndex(offset);
      var endCharIndex := CharIndex(offset + length - 1);
      var beginBit := offset % 8;
      var endBit := EndBit(offset, length);
      if beginCharIndex == endCharIndex {
        SingleBytePath(buf[..], bitSz, offset, length, amount);
        assert shiftBit == shift by {
          ModOfSmall(shift, 8);
        }
        assert beginCharIndex == offset / 8;
        RotateSingle(beginCharIndex, beginBit, endBit, shiftBit);
      }
    }

    /** `bitarray_rotate_left_one`: moves every bit of the range one place toward its start
        and puts the range's first bit at its end, through `get` and `set`. */
    method RotateLeftOne(offset: nat, length: nat)
      requires Valid() && offset < bitSz && offset + length <= bitSz
      modifies buf
      ensures Bits() == RangeStep(old(Bits()), offset, length)
    {
      ghost var o := Bits();
      var firstBit := Get(offset);
      var i := offset;
      while i + 1 < offset + length
        invariant offset <= i < bitSz && bitSz <= |o|
        invariant if length == 0 then i == offset else i < offset + length
        invariant Bits() == PartlyShifted(o, offset, i)
      {
        var next := Get(i + 1);
        Set(i, next);
        assert Bits() == PartlyShifted(o, offset, i + 1) by {
          PartlyShiftedStep(o, offset, i);
        }
        i := i + 1;
      }
      Set(i, firstBit);
      assert Bits() == RangeStep(o, offset, length) by {
        PartlyShiftedDone(o, offset, length, i);
      }
    }

    /** `bitarray_rotate_left`: `k` single steps of the range. */
    method RotateLeft(offset: nat, length: nat, k: nat)
      requires Valid() && offset + length <= bitSz
      requires k > 0 ==> offset < bitSz
      modifies buf
      ensures Bits() == RangeSteps(old(Bits()), offset, length, k)
    {
      ghost var o := Bits();
      var i := 0;
      while i < k
        invariant i <= k
        invariant Bits() == RangeSteps(o, offset, length, i)
      {
        RotateLeftOne(offset, length);
        i := i + 1;
      }
    }

    /** `bitarray_rotate_old`: `modulo(-amount, length)` single steps of the range; nothing
        for an empty range. */
    method RotateOld(offset: nat, length: nat, amount: int)
      requires Valid() && offset + length <= bitSz
      modifies buf
      ensures Bits() == RotateOldEffect(old(Bits()), offset, length, amount)
    {
      if length == 0 {
        return;
      }
      RotateLeft(offset, length, Modulo(-amount, length));
    }
  }
}
