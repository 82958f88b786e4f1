/** Byte-level building blocks of the packed bit array: the numbering of bits
    inside a byte, shifts, the single-bit mask, the read-modify-write of one bit
    and the four mask tables with the two "clean" operations built on them.
    A byte is an unsigned `bv8`; bit `k` is counted from the least significant bit. */
module Bytes {

  /** Bit `k` of byte `b`: bit 0 is the low bit, and bit `k` is bit `k - 1` of the
      byte shifted down one place. */
  predicate BitOf(b: bv8, k: nat)
    requires k < 8
    decreases k
  {
    if k == 0 then b & 1 == 1 else BitOf(b >> 1, k - 1)
  }

  /** The byte whose only set bit is bit `k`. */
  function PosMask(k: nat): (m: bv8)
    requires k < 8
  {
    match k
    case 0 => 0x01
    case 1 => 0x02
    case 2 => 0x04
    case 3 => 0x08
    case 4 => 0x10
    case 5 => 0x20
    case 6 => 0x40
    case 7 => 0x80
  }

  /** Bit `k` is set exactly when `b` shares a bit with `PosMask(k)`. */
  lemma {:induction false} BitOfMask(b: bv8, k: nat)
    requires k < 8
    ensures BitOf(b, k) == (b & PosMask(k) != 0)
  {
    if k > 0 {
      BitOfMask(b >> 1, k - 1);
      assert ((b >> 1) & PosMask(k - 1) != 0) == (b & PosMask(k) != 0) by {
        if k == 1 {} else if k == 2 {} else if k == 3 {} else if k == 4 {}
        else if k == 5 {} else if k == 6 {} else {}
      }
    }
  }

  /** The eight bits of a byte, least significant first. */
  function ByteBits(b: bv8): (s: seq<bool>)
    ensures |s| == 8
  {
    seq(8, k requires 0 <= k < 8 => BitOf(b, k))
  }

  // ---- bitwise operators, bit by bit ----

  lemma AndBit(x: bv8, y: bv8, k: nat)
    requires k < 8
    ensures BitOf(x & y, k) == (BitOf(x, k) && BitOf(y, k))
  {
    BitOfMask(x & y, k);
    BitOfMask(x, k);
    BitOfMask(y, k);
  }

  lemma OrBit(x: bv8, y: bv8, k: nat)
    requires k < 8
    ensures BitOf(x | y, k) == (BitOf(x, k) || BitOf(y, k))
  {
    BitOfMask(x | y, k);
    BitOfMask(x, k);
    BitOfMask(y, k);
  }

  /** Every bit of `z == x & y` is the conjunction of the bits of `x` and `y`. */
  lemma AndBits(x: bv8, y: bv8, z: bv8)
    requires z == x & y
    ensures forall k | 0 <= k < 8 :: BitOf(z, k) == (BitOf(x, k) && BitOf(y, k))
  {
    forall k | 0 <= k < 8
      ensures BitOf(z, k) == (BitOf(x, k) && BitOf(y, k))
    {
      AndBit(x, y, k);
    }
  }

  lemma AndNotBit(x: bv8, y: bv8, k: nat)
    requires k < 8
    ensures BitOf(x & !y, k) == (BitOf(x, k) && !BitOf(y, k))
  {
    NotBit(y, k);
    AndBit(x, !y, k);
  }

  lemma OrNotBit(x: bv8, y: bv8, k: nat)
    requires k < 8
    ensures BitOf(x | !y, k) == (BitOf(x, k) || !BitOf(y, k))
  {
    NotBit(y, k);
    OrBit(x, !y, k);
  }

  lemma Or4Bit(w: bv8, x: bv8, y: bv8, z: bv8, k: nat)
    requires k < 8
    ensures BitOf(w | x | y | z, k) == (BitOf(w, k) || BitOf(x, k) || BitOf(y, k) || BitOf(z, k))
  {
    BitOfMask(w | x | y | z, k);
    BitOfMask(w, k);
    BitOfMask(x, k);
    BitOfMask(y, k);
    BitOfMask(z, k);
  }

  lemma NotBit(x: bv8, k: nat)
    requires k < 8
    ensures BitOf(!x, k) == !BitOf(x, k)
  {
    BitOfMask(!x, k);
    BitOfMask(x, k);
  }

  lemma ZeroBit(k: nat)
    requires k < 8
    ensures !BitOf(0, k)
  {
    BitOfMask(0, k);
  }

  lemma OnesBit(k: nat)
    requires k < 8
    ensures BitOf(0xFF, k)
  {
    BitOfMask(0xFF, k);
  }

  lemma OneBit(k: nat)
    requires k < 8
    ensures BitOf(1, k) == (k == 0)
  {
    BitOfMask(1, k);
  }

  /** Two bytes with the same eight bits are equal. */
  lemma ByteExt(x: bv8, y: bv8)
    requires forall k | 0 <= k < 8 :: BitOf(x, k) == BitOf(y, k)
    ensures x == y
  {
    forall k | 0 <= k < 8
      ensures x & PosMask(k) == y & PosMask(k)
    {
      BitOfMask(x, k);
      BitOfMask(y, k);
      if k == 0 {} else if k == 1 {} else if k == 2 {} else if k == 3 {}
      else if k == 4 {} else if k == 5 {} else if k == 6 {} else {}
    }
    assert x & PosMask(0) == y & PosMask(0) && x & PosMask(1) == y & PosMask(1);
    assert x & PosMask(2) == y & PosMask(2) && x & PosMask(3) == y & PosMask(3);
    assert x & PosMask(4) == y & PosMask(4) && x & PosMask(5) == y & PosMask(5);
    assert x & PosMask(6) == y & PosMask(6) && x & PosMask(7) == y & PosMask(7);
  }

  // ---- shifts by a variable amount ----

  /** Shifting down one place moves bit `k + 1` to bit `k` and clears bit 7. */
  lemma ShiftRightOneBit(x: bv8, k: nat)
    requires k < 8
    ensures BitOf(x >> 1, k) == (k + 1 < 8 && BitOf(x, k + 1))
  {
    if k == 7 {
      BitOfMask(x >> 1, 7);
    }
  }

  /** Shifting up one place moves bit `k - 1` to bit `k` and clears bit 0. */
  lemma ShiftLeftOneBit(x: bv8, k: nat)
    requires k < 8
    ensures BitOf(x << 1, k) == (1 <= k && BitOf(x, k - 1))
  {
    if k == 0 {
      BitOfMask(x << 1, 0);
    } else {
      assert (x << 1) >> 1 == x & 0x7F;
      AndBit(x, 0x7F, k - 1);
      BitOfMask(0x7F, k - 1);
    }
  }

  /** `x >> n` on an unsigned byte, one place at a time. */
  function Shr(x: bv8, n: nat): (r: bv8)
    requires n <= 8
  {
    if n == 0 then x else Shr(x, n - 1) >> 1
  }

  /** `x << n` truncated to a byte, one place at a time. */
  function Shl(x: bv8, n: nat): (r: bv8)
    requires n <= 8
  {
    if n == 0 then x else Shl(x, n - 1) << 1
  }

  /** The stepwise shifts are Dafny's (and C's) shifts of an unsigned byte. */
  lemma ShiftsAreShifts(x: bv8, n: nat)
    requires n <= 8
    ensures Shr(x, n) == x >> n && Shl(x, n) == x << n
  {
    if n == 0 {} else if n == 1 {} else if n == 2 {} else if n == 3 {} else if n == 4 {}
    else if n == 5 {} else if n == 6 {} else if n == 7 {} else {}
  }

  lemma {:induction false} ShiftRightBit(x: bv8, s: nat, k: nat)
    requires s <= 8 && k < 8
    ensures BitOf(Shr(x, s), k) == (k + s < 8 && BitOf(x, k + s))
  {
    if s > 0 {
      ShiftRightOneBit(Shr(x, s - 1), k);
      if k + 1 < 8 {
        ShiftRightBit(x, s - 1, k + 1);
      }
    }
  }

  lemma {:induction false} ShiftLeftBit(x: bv8, s: nat, k: nat)
    requires s <= 8 && k < 8
    ensures BitOf(Shl(x, s), k) == (s <= k && BitOf(x, k - s))
  {
    if s > 0 {
      ShiftLeftOneBit(Shl(x, s - 1), k);
      if 1 <= k {
        ShiftLeftBit(x, s - 1, k - 1);
      }
    }
  }

  // ---- single-bit access ----

  /** `bitmask`: the byte whose only set bit is bit `i % 8`. */
  function Bitmask(i: nat): (m: bv8)
    ensures forall k | 0 <= k < 8 :: BitOf(m, k) == (k == i % 8)
  {
    var m := Shl(1, i % 8);
    assert forall k | 0 <= k < 8 :: BitOf(m, k) == (k == i % 8) by {
      forall k | 0 <= k < 8
        ensures BitOf(m, k) == (k == i % 8)
      {
        ShiftLeftBit(1, i % 8, k);
        if i % 8 <= k {
          OneBit(k - i % 8);
        }
      }
    }
    m
  }

  /** Testing a byte against `Bitmask(i)` reads bit `i % 8` of it. */
  lemma MaskTest(b: bv8, i: nat)
    ensures (b & Bitmask(i) != 0) == BitOf(b, i % 8)
  {
    var m := b & Bitmask(i);
    forall k | 0 <= k < 8
      ensures BitOf(m, k) == (k == i % 8 && BitOf(b, k))
    {
      AndBit(b, Bitmask(i), k);
    }
    if !BitOf(b, i % 8) {
      forall k | 0 <= k < 8
        ensures BitOf(m, k) == BitOf(0, k)
      {
        ZeroBit(k);
      }
      ByteExt(m, 0);
    } else {
      ZeroBit(i % 8);
    }
  }

  /** The read-modify-write `bitarray_set` applies to the byte holding bit `i`:
      clear the bit with the complement of the mask, then or in the new value. */
  function SetBit(b: bv8, i: nat, v: bool): (r: bv8)
    ensures forall k | 0 <= k < 8 :: BitOf(r, k) == if k == i % 8 then v else BitOf(b, k)
  {
    var m := Bitmask(i);
    SetBitBits(b, m, v, i % 8);
    (b & !m) | (if v then m else 0)
  }

  /** Clearing with the complement of a one-bit mask and or-ing the new value in
      changes that bit alone. */
  lemma SetBitBits(b: bv8, m: bv8, v: bool, j: nat)
    requires forall k | 0 <= k < 8 :: BitOf(m, k) == (k == j)
    ensures forall k | 0 <= k < 8 ::
      BitOf((b & !m) | (if v then m else 0), k) == if k == j then v else BitOf(b, k)
  {
    forall k | 0 <= k < 8
      ensures BitOf((b & !m) | (if v then m else 0), k) == if k == j then v else BitOf(b, k)
    {
      SetBitAt(b, m, if v then m else 0, v, j, k);
    }
  }

  lemma SetBitAt(b: bv8, m: bv8, z: bv8, v: bool, j: nat, k: nat)
    requires k < 8
    requires BitOf(m, k) == (k == j)
    requires z == if v then m else 0
    ensures BitOf((b & !m) | z, k) == if k == j then v else BitOf(b, k)
  {
    AndNotBit(b, m, k);
    OrBit(b & !m, z, k);
    if !v {
      ZeroBit(k);
    }
  }

  // ---- mask tables ----

  /** `left_mask[n]`: keeps all but the top `n` bits; each entry is the previous one
      shifted down one place. */
  function LeftMask(n: nat): (m: bv8)
    requires n <= 8
    ensures forall k | 0 <= k < 8 :: BitOf(m, k) == (k < 8 - n)
  {
    var m := if n == 0 then 0xFF else LeftMask(n - 1) >> 1;
    assert forall k | 0 <= k < 8 :: BitOf(m, k) == (k < 8 - n) by {
      forall k | 0 <= k < 8
        ensures BitOf(m, k) == (k < 8 - n)
      {
        if n == 0 {
          OnesBit(k);
        } else {
          ShiftRightOneBit(LeftMask(n - 1), k);
        }
      }
    }
    m
  }

  /** `right_mask[n]`: keeps all but the low `n` bits; each entry is the previous one
      shifted up one place. */
  function RightMask(n: nat): (m: bv8)
    requires n <= 8
    ensures forall k | 0 <= k < 8 :: BitOf(m, k) == (n <= k)
  {
    var m := if n == 0 then 0xFF else RightMask(n - 1) << 1;
    assert forall k | 0 <= k < 8 :: BitOf(m, k) == (n <= k) by {
      forall k | 0 <= k < 8
        ensures BitOf(m, k) == (n <= k)
      {
        if n == 0 {
          OnesBit(k);
        } else {
          ShiftLeftOneBit(RightMask(n - 1), k);
        }
      }
    }
    m
  }

  /** `end_mask[n]` (a table the rotation never reads): the bits from `n` up. */
  function EndMask(n: nat): (m: bv8)
    requires n < 8
    ensures forall k | 0 <= k < 8 :: BitOf(m, k) == (n <= k)
  {
    var m := if n == 0 then 0xFF else EndMask(n - 1) << 1;
    assert forall k | 0 <= k < 8 :: BitOf(m, k) == (n <= k) by {
      forall k | 0 <= k < 8
        ensures BitOf(m, k) == (n <= k)
      {
        if n == 0 {
          OnesBit(k);
        } else {
          ShiftLeftOneBit(EndMask(n - 1), k);
        }
      }
    }
    m
  }

  /** `begin_mask[n]` (a table the rotation never reads): the low `n` bits. */
  function BeginMask(n: nat): (m: bv8)
    requires n < 8
    ensures forall k | 0 <= k < 8 :: BitOf(m, k) == (k < n)
  {
    var m := if n == 0 then 0x00 else (BeginMask(n - 1) << 1) | 1;
    assert forall k | 0 <= k < 8 :: BitOf(m, k) == (k < n) by {
      forall k | 0 <= k < 8
        ensures BitOf(m, k) == (k < n)
      {
        if n == 0 {
          ZeroBit(k);
        } else {
          OrBit(BeginMask(n - 1) << 1, 1, k);
          ShiftLeftOneBit(BeginMask(n - 1), k);
          OneBit(k);
        }
      }
    }
    m
  }

  /** The four tables entry by entry, as the source spells them out. */
  lemma MaskTables()
    ensures [LeftMask(0), LeftMask(1), LeftMask(2), LeftMask(3), LeftMask(4),
             LeftMask(5), LeftMask(6), LeftMask(7), LeftMask(8)]
         == [0xFF, 0x7F, 0x3F, 0x1F, 0x0F, 0x07, 0x03, 0x01, 0x00]
    ensures [RightMask(0), RightMask(1), RightMask(2), RightMask(3), RightMask(4),
             RightMask(5), RightMask(6), RightMask(7), RightMask(8)]
         == [0xFF, 0xFE, 0xFC, 0xF8, 0xF0, 0xE0, 0xC0, 0x80, 0x00]
    ensures [EndMask(0), EndMask(1), EndMask(2), EndMask(3),
             EndMask(4), EndMask(5), EndMask(6), EndMask(7)]
         == [0xFF, 0xFE, 0xFC, 0xF8, 0xF0, 0xE0, 0xC0, 0x80]
    ensures [BeginMask(0), BeginMask(1), BeginMask(2), BeginMask(3),
             BeginMask(4), BeginMask(5), BeginMask(6), BeginMask(7)]
         == [0x00, 0x01, 0x03, 0x07, 0x0F, 0x1F, 0x3F, 0x7F]
  {
  }

  /** `clean_left`: clears the top `n` bits of `c` and keeps the rest. */
  function CleanLeft(c: bv8, n: nat): (r: bv8)
    requires n <= 8
    ensures forall k | 0 <= k < 8 :: BitOf(r, k) == (k < 8 - n && BitOf(c, k))
  {
    AndBits(c, LeftMask(n), c & LeftMask(n));
    c & LeftMask(n)
  }

  /** `clean_right`: clears the low `n` bits of `c` and keeps the rest. */
  function CleanRight(c: bv8, n: nat): (r: bv8)
    requires n <= 8
    ensures forall k | 0 <= k < 8 :: BitOf(r, k) == (n <= k && BitOf(c, k))
  {
    AndBits(c, RightMask(n), c & RightMask(n));
    c & RightMask(n)
  }
}
