/** The masked rotation of a bit range that lies inside one byte (`rotate_single`).
    The range starts `beginBit` bits above the byte's least significant bit and
    leaves `endBit` bits of the byte above it; its length is `8 - beginBit - endBit`.
    With a shift of `shiftBit`, range position `j` moves to `(j - shiftBit) mod length`. */
module SingleByte {
  import opened Bytes
  import opened ModArith

  /** The range bits at or above `beginBit + shiftBit`, still in place (`c1` before its shift). */
  function HighPart(c: bv8, beginBit: nat, endBit: nat, shiftBit: nat): (h: bv8)
    requires beginBit + shiftBit + endBit <= 8
    ensures forall k | 0 <= k < 8 ::
      BitOf(h, k) == (beginBit + shiftBit <= k < 8 - endBit && BitOf(c, k))
  {
    CleanRight(CleanLeft(c, endBit), beginBit + shiftBit)
  }

  /** The low `shiftBit` bits of the range moved up to the top of the range (`c2`). */
  function WrappedPart(c: bv8, beginBit: nat, endBit: nat, shiftBit: nat): (w: bv8)
    requires beginBit + shiftBit + endBit <= 8
    ensures forall k | 0 <= k < 8 ::
      BitOf(w, k) == (8 - endBit - shiftBit <= k < 8 - endBit && BitOf(c, k - (8 - beginBit - shiftBit - endBit)))
  {
    var w := Shl(CleanRight(CleanLeft(c, 8 - (beginBit + shiftBit)), beginBit), 8 - beginBit - shiftBit - endBit);
    assert forall k | 0 <= k < 8 ::
      BitOf(w, k) == (8 - endBit - shiftBit <= k < 8 - endBit && BitOf(c, k - (8 - beginBit - shiftBit - endBit))) by {
      forall k | 0 <= k < 8
        ensures BitOf(w, k) == (8 - endBit - shiftBit <= k < 8 - endBit && BitOf(c, k - (8 - beginBit - shiftBit - endBit)))
      {
        WrappedBitAt(c, beginBit, endBit, shiftBit, k);
      }
    }
    w
  }

  /** Bit `k` of the low part moved up: the low `shiftBit` bits of the range land at the
      top `shiftBit` positions of the range. */
  lemma WrappedBitAt(c: bv8, beginBit: nat, endBit: nat, shiftBit: nat, k: nat)
    requires beginBit + shiftBit + endBit <= 8 && k < 8
    ensures BitOf(Shl(CleanRight(CleanLeft(c, 8 - (beginBit + shiftBit)), beginBit), 8 - beginBit - shiftBit - endBit), k)
      == (8 - endBit - shiftBit <= k < 8 - endBit && BitOf(c, k - (8 - beginBit - shiftBit - endBit)))
  {
    var low := CleanRight(CleanLeft(c, 8 - (beginBit + shiftBit)), beginBit);
    var up := 8 - beginBit - shiftBit - endBit;
    var lowBits := forall j | 0 <= j < 8 :: BitOf(low, j) == (beginBit <= j < beginBit + shiftBit && BitOf(c, j));
    assert lowBits;
    var moved := BitOf(Shl(low, up), k);
    assert moved == (beginBit + up <= k < beginBit + shiftBit + up && BitOf(c, k - up)) by {
      ShiftUpRange(low, c, beginBit, beginBit + shiftBit, up, k);
    }
  }

  /** Shifting up by `up` a byte that holds bits `lo` to `hi - 1` of `c` (and nothing else)
      puts bit `k - up` of `c` at `k` for `k` in `lo + up .. hi + up - 1`. */
  lemma ShiftUpRange(low: bv8, c: bv8, lo: nat, hi: nat, up: nat, k: nat)
    requires up <= 8 && k < 8
    requires forall j | 0 <= j < 8 :: BitOf(low, j) == (lo <= j < hi && BitOf(c, j))
    ensures BitOf(Shl(low, up), k) == (lo + up <= k < hi + up && BitOf(c, k - up))
  {
    ShiftLeftBit(low, up, k);
  }

  /** `rotate_single`'s new byte: the shifted-down high part, the wrapped-around low
      part, and the bits below and above the range (`c3`, `c4`) kept as they were.
      The contract states that the bits outside the range are kept; that the range is
      rotated is `RotateSingleByteCorrect`. */
  function RotateSingleByte(c: bv8, beginBit: nat, endBit: nat, shiftBit: nat): (r: bv8)
    requires beginBit + shiftBit + endBit <= 8
    ensures CleanLeft(r, 8 - beginBit) == CleanLeft(c, 8 - beginBit)
    ensures CleanRight(r, 8 - endBit) == CleanRight(c, 8 - endBit)
  {
    var c1 := Shr(HighPart(c, beginBit, endBit, shiftBit), shiftBit);
    var c2 := WrappedPart(c, beginBit, endBit, shiftBit);
    var c3 := CleanLeft(c, 8 - beginBit);
    var c4 := CleanRight(c, 8 - endBit);
    OutsideKept(c, beginBit, endBit, shiftBit, c1 | c2 | c3 | c4);
    c1 | c2 | c3 | c4
  }

  /** The four parts or-ed together keep the bits of `c` below and above the range. */
  lemma OutsideKept(c: bv8, beginBit: nat, endBit: nat, shiftBit: nat, r: bv8)
    requires beginBit + shiftBit + endBit <= 8
    requires r == Shr(HighPart(c, beginBit, endBit, shiftBit), shiftBit) |
      WrappedPart(c, beginBit, endBit, shiftBit) | CleanLeft(c, 8 - beginBit) | CleanRight(c, 8 - endBit)
    ensures CleanLeft(r, 8 - beginBit) == CleanLeft(c, 8 - beginBit)
    ensures CleanRight(r, 8 - endBit) == CleanRight(c, 8 - endBit)
  {
    var below, belowC := CleanLeft(r, 8 - beginBit), CleanLeft(c, 8 - beginBit);
    var above, aboveC := CleanRight(r, 8 - endBit), CleanRight(c, 8 - endBit);
    forall k | 0 <= k < 8
      ensures BitOf(below, k) == BitOf(belowC, k)
      ensures BitOf(above, k) == BitOf(aboveC, k)
    {
      RotatedBitParts(c, beginBit, endBit, shiftBit, k, r);
    }
    ByteExt(below, belowC);
    ByteExt(above, aboveC);
  }

  /** The masked computation is a rotation: inside the range, bit `k` of the result is
      the bit `shiftBit` places above it, wrapping around the range; outside the range
      every bit is kept. */
  lemma RotateSingleByteCorrect(c: bv8, beginBit: nat, endBit: nat, shiftBit: nat)
    requires beginBit + shiftBit + endBit <= 8
    ensures forall k | 0 <= k < 8 ::
      BitOf(RotateSingleByte(c, beginBit, endBit, shiftBit), k) ==
        if beginBit <= k < 8 - endBit
        then BitOf(c, beginBit + (k - beginBit + shiftBit) % (8 - beginBit - endBit))
        else BitOf(c, k)
  {
    RotatedBits(c, beginBit, endBit, shiftBit, RotateSingleByte(c, beginBit, endBit, shiftBit));
  }

  /** The four parts or-ed together rotate the range and keep every other bit. */
  lemma RotatedBits(c: bv8, beginBit: nat, endBit: nat, shiftBit: nat, r: bv8)
    requires beginBit + shiftBit + endBit <= 8
    requires r == Shr(HighPart(c, beginBit, endBit, shiftBit), shiftBit) |
      WrappedPart(c, beginBit, endBit, shiftBit) | CleanLeft(c, 8 - beginBit) | CleanRight(c, 8 - endBit)
    ensures forall k {:trigger BitOf(r, k)} | 0 <= k < 8 ::
      BitOf(r, k) ==
        if beginBit <= k < 8 - endBit
        then BitOf(c, beginBit + (k - beginBit + shiftBit) % (8 - beginBit - endBit))
        else BitOf(c, k)
  {
    forall k {:trigger BitOf(r, k)} | 0 <= k < 8 {
      RotatedBitAt(c, beginBit, endBit, shiftBit, k, r);
    }
  }

  /** Bit `k` of the four parts or-ed together, as a range position. */
  lemma RotatedBitAt(c: bv8, beginBit: nat, endBit: nat, shiftBit: nat, k: nat, r: bv8)
    requires beginBit + shiftBit + endBit <= 8 && k < 8
    requires r == Shr(HighPart(c, beginBit, endBit, shiftBit), shiftBit) |
      WrappedPart(c, beginBit, endBit, shiftBit) | CleanLeft(c, 8 - beginBit) | CleanRight(c, 8 - endBit)
    ensures BitOf(r, k) ==
      if beginBit <= k < 8 - endBit
      then BitOf(c, beginBit + (k - beginBit + shiftBit) % (8 - beginBit - endBit))
      else BitOf(c, k)
  {
    if beginBit <= k && k + shiftBit < 8 - endBit {
      RotatedBitShifted(c, beginBit, endBit, shiftBit, k, r);
    } else if beginBit <= k < 8 - endBit {
      RotatedBitWrapped(c, beginBit, endBit, shiftBit, k, r);
    } else {
      RotatedBitParts(c, beginBit, endBit, shiftBit, k, r);
    }
  }

  /** The lower part of the range receives the bits `shiftBit` places above, which is
      range position `(k - beginBit + shiftBit) mod length` without wrapping. */
  lemma RotatedBitShifted(c: bv8, beginBit: nat, endBit: nat, shiftBit: nat, k: nat, r: bv8)
    requires beginBit + shiftBit + endBit <= 8
    requires beginBit <= k && k + shiftBit < 8 - endBit
    requires r == Shr(HighPart(c, beginBit, endBit, shiftBit), shiftBit) |
      WrappedPart(c, beginBit, endBit, shiftBit) | CleanLeft(c, 8 - beginBit) | CleanRight(c, 8 - endBit)
    ensures BitOf(r, k) == BitOf(c, beginBit + (k - beginBit + shiftBit) % (8 - beginBit - endBit))
  {
    assert beginBit + (k - beginBit + shiftBit) % (8 - beginBit - endBit) == k + shiftBit by {
      ModOfSmall(k - beginBit + shiftBit, 8 - beginBit - endBit);
    }
    assert BitOf(r, k) == BitOf(c, k + shiftBit) by {
      RotatedBitParts(c, beginBit, endBit, shiftBit, k, r);
    }
  }

  /** The top `shiftBit` bits of the range receive the range's low bits: range position
      `(k - beginBit + shiftBit) mod length` after one wrap. */
  lemma RotatedBitWrapped(c: bv8, beginBit: nat, endBit: nat, shiftBit: nat, k: nat, r: bv8)
    requires beginBit + shiftBit + endBit <= 8
    requires beginBit <= k < 8 - endBit <= k + shiftBit
    requires r == Shr(HighPart(c, beginBit, endBit, shiftBit), shiftBit) |
      WrappedPart(c, beginBit, endBit, shiftBit) | CleanLeft(c, 8 - beginBit) | CleanRight(c, 8 - endBit)
    ensures BitOf(r, k) == BitOf(c, beginBit + (k - beginBit + shiftBit) % (8 - beginBit - endBit))
  {
    var up := 8 - beginBit - shiftBit - endBit;
    assert beginBit + (k - beginBit + shiftBit) % (8 - beginBit - endBit) == k - up by {
      ModOfOneTurn(k - beginBit + shiftBit, 8 - beginBit - endBit);
    }
    assert BitOf(r, k) == BitOf(c, k - up) by {
      RotatedBitParts(c, beginBit, endBit, shiftBit, k, r);
    }
  }

  /** Bit `k` of the four parts or-ed together, part by part: the shifted high part
      contributes range bit `k + shiftBit`, the wrapped part the range's low bits, and
      the two kept parts the bits of `c` below and above the range. */
  lemma RotatedBitParts(c: bv8, beginBit: nat, endBit: nat, shiftBit: nat, k: nat, r: bv8)
    requires beginBit + shiftBit + endBit <= 8 && k < 8
    requires r == Shr(HighPart(c, beginBit, endBit, shiftBit), shiftBit) |
      WrappedPart(c, beginBit, endBit, shiftBit) | CleanLeft(c, 8 - beginBit) | CleanRight(c, 8 - endBit)
    ensures BitOf(r, k) ==
      ((beginBit <= k && k + shiftBit < 8 - endBit && BitOf(c, k + shiftBit)) ||
       (8 - endBit - shiftBit <= k < 8 - endBit && BitOf(c, k - (8 - beginBit - shiftBit - endBit))) ||
       (k < beginBit && BitOf(c, k)) ||
       (8 - endBit <= k && BitOf(c, k)))
  {
    Or4Bit(Shr(HighPart(c, beginBit, endBit, shiftBit), shiftBit), WrappedPart(c, beginBit, endBit, shiftBit),
           CleanLeft(c, 8 - beginBit), CleanRight(c, 8 - endBit), k);
    PartBits(c, beginBit, endBit, shiftBit, k);
  }

  /** Bit `k` of each of the four parts on its own. */
  lemma PartBits(c: bv8, beginBit: nat, endBit: nat, shiftBit: nat, k: nat)
    requires beginBit + shiftBit + endBit <= 8 && k < 8
    ensures BitOf(Shr(HighPart(c, beginBit, endBit, shiftBit), shiftBit), k) ==
      (beginBit <= k && k + shiftBit < 8 - endBit && BitOf(c, k + shiftBit))
    ensures BitOf(WrappedPart(c, beginBit, endBit, shiftBit), k) ==
      (8 - endBit - shiftBit <= k < 8 - endBit && BitOf(c, k - (8 - beginBit - shiftBit - endBit)))
    ensures BitOf(CleanLeft(c, 8 - beginBit), k) == (k < beginBit && BitOf(c, k))
    ensures BitOf(CleanRight(c, 8 - endBit), k) == (8 - endBit <= k && BitOf(c, k))
  {
    ShiftedHighBit(c, beginBit, endBit, shiftBit, k);
  }

  /** Bit `k` of the shifted high part is range bit `k + shiftBit`, when there is one. */
  lemma ShiftedHighBit(c: bv8, beginBit: nat, endBit: nat, shiftBit: nat, k: nat)
    requires beginBit + shiftBit + endBit <= 8 && k < 8
    ensures BitOf(Shr(HighPart(c, beginBit, endBit, shiftBit), shiftBit), k) ==
      (beginBit <= k && k + shiftBit < 8 - endBit && BitOf(c, k + shiftBit))
  {
    var h := HighPart(c, beginBit, endBit, shiftBit);
    ShiftRightBit(h, shiftBit, k);
    if k + shiftBit < 8 {
      assert BitOf(h, k + shiftBit) == (beginBit + shiftBit <= k + shiftBit < 8 - endBit && BitOf(c, k + shiftBit));
    }
  }

  // ---- the byte as the C code computes it with a signed `char` ----

  /** `>>` on a signed `char`: the vacated top bits are copies of the sign bit. */
  function ArithmeticShiftRight(x: bv8, s: nat): (r: bv8)
    requires s <= 8
    ensures forall k | 0 <= k < 8 :: BitOf(r, k) == if k + s < 8 then BitOf(x, k + s) else BitOf(x, 7)
  {
    ArithmeticShiftBits(x, s, Shr(x, s) | !Shr(0xFF, s));
    if BitOf(x, 7) then Shr(x, s) | !Shr(0xFF, s) else Shr(x, s)
  }

  /** Shifting down and or-ing in the complement of the shifted all-ones byte fills the
      vacated top bits with ones. */
  lemma ArithmeticShiftBits(x: bv8, s: nat, y: bv8)
    requires s <= 8 && y == Shr(x, s) | !Shr(0xFF, s)
    ensures forall k | 0 <= k < 8 :: BitOf(y, k) == (if k + s < 8 then BitOf(x, k + s) else true)
    ensures forall k | 0 <= k < 8 :: BitOf(Shr(x, s), k) == (k + s < 8 && BitOf(x, k + s))
  {
    forall k | 0 <= k < 8
      ensures BitOf(y, k) == (if k + s < 8 then BitOf(x, k + s) else true)
    {
      ShiftRightBit(x, s, k);
      ShiftRightBit(0xFF, s, k);
      if k + s < 8 {
        OnesBit(k + s);
      }
      OrNotBit(Shr(x, s), Shr(0xFF, s), k);
    }
    forall k | 0 <= k < 8
      ensures BitOf(Shr(x, s), k) == (k + s < 8 && BitOf(x, k + s))
    {
      ShiftRightBit(x, s, k);
    }
  }

  /** `rotate_single` as written, where `c1` is a signed `char` so that `c1 >> shiftBit`
      copies bit 7 into the bits it vacates. When the range does not reach bit 7, or bit 7
      is clear, the sign extension is harmless and the byte is the rotated one. */
  function RotateSingleByteAsWritten(c: bv8, beginBit: nat, endBit: nat, shiftBit: nat): (r: bv8)
    requires beginBit + shiftBit + endBit <= 8
    ensures endBit > 0 || !BitOf(c, 7) ==> r == RotateSingleByte(c, beginBit, endBit, shiftBit)
  {
    var h := HighPart(c, beginBit, endBit, shiftBit);
    var c1 := ArithmeticShiftRight(h, shiftBit);
    var c2 := WrappedPart(c, beginBit, endBit, shiftBit);
    var c3 := CleanLeft(c, 8 - beginBit);
    var c4 := CleanRight(c, 8 - endBit);
    SignBitUnused(c, beginBit, endBit, shiftBit);
    c1 | c2 | c3 | c4
  }

  /** The high part reaches bit 7 only when the range does and bit 7 is set. */
  lemma SignBitUnused(c: bv8, beginBit: nat, endBit: nat, shiftBit: nat)
    requires beginBit + shiftBit + endBit <= 8
    ensures endBit > 0 || !BitOf(c, 7) ==> !BitOf(HighPart(c, beginBit, endBit, shiftBit), 7)
  {
  }

  /** When the range ends at bit 7, bit 7 is set, and the bit that should rotate into
      bit 7 is clear, the as-written byte is wrong: it has bit 7 set. */
  lemma AsWrittenBreaksRotation(c: bv8, beginBit: nat, shiftBit: nat)
    requires 1 <= shiftBit && beginBit + shiftBit < 8
    requires BitOf(c, 7) && !BitOf(c, beginBit + shiftBit - 1)
    ensures BitOf(RotateSingleByteAsWritten(c, beginBit, 0, shiftBit), 7)
    ensures !BitOf(RotateSingleByte(c, beginBit, 0, shiftBit), 7)
  {
    var h := HighPart(c, beginBit, 0, shiftBit);
    var c1 := ArithmeticShiftRight(h, shiftBit);
    assert BitOf(h, 7);
    assert BitOf(c1, 7);
    OrBit(c1, WrappedPart(c, beginBit, 0, shiftBit), 7);
    OrBit(c1 | WrappedPart(c, beginBit, 0, shiftBit), CleanLeft(c, 8 - beginBit), 7);
    OrBit(c1 | WrappedPart(c, beginBit, 0, shiftBit) | CleanLeft(c, 8 - beginBit), CleanRight(c, 8), 7);
    RotateSingleByteCorrect(c, beginBit, 0, shiftBit);
    ModOfOneTurn(7 - beginBit + shiftBit, 8 - beginBit);
  }

  /** A concrete instance: the whole byte `0x80` rotated by one. */
  lemma SignExtensionExample()
    ensures RotateSingleByteAsWritten(0x80, 0, 0, 1) == 0xC0
    ensures RotateSingleByte(0x80, 0, 0, 1) == 0x40
  {
  }
}
