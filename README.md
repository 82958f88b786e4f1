# Packed bit array with in-place rotation (everybit `bitarray.c`)

This project models the packed bit array of `everybit/bitarray.c` in Dafny and proves its
operations correct against a ghost view of the bits.

## Representation

A bit array of `bit_sz` bits lives in a buffer of `ceil(bit_sz / 8)` bytes. Logical bit `i` is
bit `i % 8` of byte `i / 8`, where bit 0 is a byte's least significant bit.

The model is a class, `BitArrays.BitArray`:
- the constant `bitSz`;
- the buffer `buf: array<bv8>`;
- the ghost function `Bits()`, the sequence of every bit of the buffer, padding bits included;
- the ghost function `View()`, the first `bitSz` of those bits.

Every operation that changes the buffer, except `RotateSingle`, is specified by the new value
of `Bits()`. This states both the bits an operation changes and that the padding bits of the
last byte never change. `RotateSingle` is specified by the new bytes, `buf[..]`, and
`BitArrays.RotateSingleBits` states what those bytes mean as bits.

## Modules

- `ShiftNormalizer` (`shift.dfy`): C's truncating remainder, `modulo` and `get_shift`.
- `Layout` (`layout.dfy`): the buffer size, `get_char_index`, `get_end_char_index` and
  `get_end_bit`, plus `BitsOf`, the bits a byte sequence stands for.
- `Bytes` (`bytes.dfy`):
  - bit `k` of a byte;
  - shifts, defined one place at a time; `Bytes.ShiftsAreShifts` proves them equal to the
    byte shifts `>>` and `<<` of `bitarray.c:242` and `bitarray.c:252`;
  - `bitmask`;
  - the byte rewrite of `bitarray_set`;
  - the four mask tables;
  - `clean_left` and `clean_right`.
- `SingleByte` (`single_byte.dfy`): `rotate_single`'s byte computation, and its as-written
  variant with a signed `char`.
- `Rotation` (`rotation.dfy`): rotation of a sub-range of a sequence.
  - `RotateLeft` is the closed form.
  - `NaiveRotateLeft` and `RangeSteps` apply one-place steps repeatedly.
  - Lemmas tie each form to the closed form.
- `BitArrays` (`bitarray.dfy`): the effect of `bitarray_rotate` on the bits, and the class
  with `bitarray_new`, `bitarray_get`, `bitarray_set`, `rotate_single`, `bitarray_rotate`,
  `bitarray_rotate_left_one`, `bitarray_rotate_left` and `bitarray_rotate_old`.
- `Scenarios` (`scenarios.dfy`): the self-test functions at the end of `bitarray.c`, replayed.
  - The assertions on pure helpers are lemmas.
  - The self-tests that build arrays are methods: they make the same calls on a `BitArray` and
    return the bytes the self-tests compare.
- `ModArith` (`mod_arith.dfy`): facts about `%` used by the proofs.

## Rotation directions

The two rotation entry points turn the range in opposite directions for the same signed amount.

- `bitarray_rotate(offset, length, r)` moves range position `j` to `(j - r) mod length`. This is
  `RotateRange(bits, offset, length, r)`: bit `p` of the range takes the bit `r` places above it.
- `bitarray_rotate_old(offset, length, r)` left-rotates by `modulo(-r, length)`. It moves range
  position `j` to `(j + r) mod length`, which is `RotateRange(bits, offset, length, -r)`.

`BitArrays.OldUndoesMasked` proves that, whenever `bitarray_rotate` acts (`RotateActs`), running
the second after the first restores the bits. When it does not act, for instance on a range
that spans two bytes, the first call changes nothing and the second still rotates the range.

## Where the code and the documented design differ

The model follows the code in each case.

- **Multi-byte ranges.** The documented design calls for a rotation of any range. The code's
  `bitarray_rotate` only acts when the whole range lies inside one byte. For a range spanning
  two or more bytes it returns without changing anything (`bitarray.c:296-298`).
- **Out-of-range requests.** The documented design asks for an error when the range leaves the
  array. The code returns silently (`bitarray.c:274-276`), and so does `BitArray.Rotate`.
- **Direction of the masked rotation.** The documented design calls a positive amount a right
  rotation and turns it into the left amount `(-right_amount) mod length`. The code's
  `get_shift` (`bitarray.c:178-184`) returns `right_amount mod length` instead, and
  `bitarray_rotate` moves range position `j` to `j - s`, which is toward the range's start
  (leftward in index order). The design's own worked example (`0x02` over `(0, 7, 1)` becomes
  `0x01`) agrees with the code.

## Model

| member | source | states |
|---|---|---|
| ShiftNormalizer.CRem | everybit/bitarray.c:343 | C's `%` truncates toward zero. For a non-negative dividend it is the mathematical remainder. For a negative one it is that remainder minus `m`, or 0 when the remainder is 0. |
| ShiftNormalizer.Modulo | everybit/bitarray.c:340-346 | `((n % m) + m) % m` with C's `%` is never negative, is below `m`, and equals the mathematical remainder `n mod m`. |
| ShiftNormalizer.GetShift | everybit/bitarray.c:178-184 | `get_shift(L, r)` lies in `[0, L)` and equals `r mod L`. The `result < 0` branch therefore never runs. |
| Layout.ByteCount | everybit/bitarray.c:114-116 | The buffer size `bit_sz / 8 + (bit_sz % 8 != 0)` is the least number of bytes that holds `bit_sz` bits: `bitSz <= 8k < bitSz + 8`. |
| Layout.CharIndex | everybit/bitarray.c:186-188 | `get_char_index(i)` is the byte `c` with `8c <= i < 8c + 8`. |
| Layout.EndCharIndex | everybit/bitarray.c:190-192 | For a non-empty range, `get_end_char_index` is the byte that holds the range's last bit. |
| Layout.EndBit | everybit/bitarray.c:194-196 | `get_end_bit` is below 8, and adding it to `offset + length` reaches a byte boundary. |
| Layout.SingleByteWidths | everybit/bitarray.c:290-294 | When a non-empty range begins and ends in the same byte, `beginBit + length + endBit == 8`. So every mask-table index `rotate_single` uses lies in 0..8. |
| Layout.BitsOfAt | everybit/bitarray.c:146-157 | Bit `i` of the buffer's bit sequence is bit `i % 8` of byte `i / 8`. |
| Layout.BitsOfUpdate | everybit/bitarray.c:171-175 | Replacing byte `j` changes the bits of byte `j` and no other bit. |
| Layout.BitsOfZeros | everybit/bitarray.c:115-116 | A zero-filled buffer stands for bits that are all clear. |
| Layout.BitsOfInjective | everybit/bitarray.c:41-49 | Two equally long buffers that stand for the same bits hold the same bytes, so the bit view loses nothing. |
| Bytes.Bitmask | everybit/bitarray.c:482-484 | `bitmask(i)` has exactly one bit set, bit `i % 8`. |
| Bytes.MaskTest | everybit/bitarray.c:157-158 | `byte & bitmask(i)` is non-zero exactly when bit `i % 8` of the byte is set. |
| Bytes.SetBit | everybit/bitarray.c:173-175 | `(byte & ~bitmask(i)) \| (v ? bitmask(i) : 0)` has bit `i % 8` equal to `v` and every other bit as before. |
| Bytes.LeftMask | everybit/bitarray.c:206-208 | `left_mask[n]` has exactly the bits below `8 - n` set. |
| Bytes.RightMask | everybit/bitarray.c:210-212 | `right_mask[n]` has exactly the bits from `n` up set. |
| Bytes.EndMask | everybit/bitarray.c:198-200 | `end_mask[n]` has exactly the bits from `n` up set. |
| Bytes.BeginMask | everybit/bitarray.c:202-204 | `begin_mask[n]` has exactly the bits below `n` set. |
| Bytes.MaskTables | everybit/bitarray.c:198-212 | The four tables, entry by entry, hold the source's literal values. |
| Bytes.ShiftsAreShifts | everybit/bitarray.c:242-252 | The one-place-at-a-time shifts `Shr` and `Shl` equal the byte shifts `c1 >> shiftBit` and `c2 << left_shift` of an unsigned byte. |
| Bytes.CleanLeft | everybit/bitarray.c:214-216 | `clean_left(c, n)` clears the top `n` bits of `c` and keeps the others. |
| Bytes.CleanRight | everybit/bitarray.c:218-220 | `clean_right(c, n)` clears the low `n` bits of `c` and keeps the others. |
| SingleByte.HighPart | everybit/bitarray.c:238-240 | `c1` before its shift holds exactly the range bits at or above `beginBit + shiftBit`. |
| SingleByte.WrappedPart | everybit/bitarray.c:245-252 | `c2` holds the range's low `shiftBit` bits, moved to the top `shiftBit` positions of the range, and nothing else. |
| SingleByte.RotateSingleByte | everybit/bitarray.c:238-261 | `rotate_single`'s new byte `c1 \| c2 \| c3 \| c4`, with `c1` shifted as an unsigned byte. Its contract keeps the bits below `beginBit` and the top `endBit` bits, in the form `clean_left` and `clean_right` give them. That the range is rotated is proved by `SingleByte.RotateSingleByteCorrect`. |
| SingleByte.RotateSingleByteCorrect | everybit/bitarray.c:238-261 | `c1 \| c2 \| c3 \| c4` rotates the range. Bit `k` of the result, inside the range, is bit `beginBit + (k - beginBit + shiftBit) mod length` of the input. Every bit outside the range is kept. |
| SingleByte.ArithmeticShiftRight | everybit/bitarray.c:242 | `>>` on a signed `char` moves bits down and copies bit 7 into the vacated top bits. |
| SingleByte.RotateSingleByteAsWritten | everybit/bitarray.c:238-261 | `rotate_single`'s byte with the signed-`char` shift of `:242`. Whenever the range does not reach bit 7, or bit 7 is clear, it equals the rotated byte `RotateSingleByte`. |
| SingleByte.AsWrittenBreaksRotation | everybit/bitarray.c:242 | When the range ends at bit 7 with bit 7 set, and the bit that should rotate into bit 7 is clear, the as-written byte wrongly has bit 7 set. |
| SingleByte.SignExtensionExample | everybit/bitarray.c:242 | Byte `0x80` rotated by one over the whole byte gives `0xC0` as written; the rotation is `0x40`. |
| Rotation.NaiveIsRotateLeft | everybit/bitarray.c:318-324 | `k` one-place left rotations equal the closed-form left rotation by `k`. |
| Rotation.RotateLeftInverse | everybit/bitarray.c:302-316 | Rotating left by `k` and then by `-k` restores the sequence. |
| Rotation.RotateLeftPermutes | everybit/bitarray.c:302-316 | A rotation keeps the multiset of elements. |
| Rotation.RotateRangeAt | everybit/bitarray.c:269-300 | A range rotation puts at range position `p` the element `(p - offset + k) mod length` places into the range, and keeps every element outside the range. |
| Rotation.RotateRangeInverse | everybit/bitarray.c:269-300 | Rotating a range by `k` and then by `-k` restores the sequence. |
| Rotation.RotateRangeModulo | everybit/bitarray.c:282 | Range rotations by amounts congruent modulo the length are equal. |
| Rotation.RangeStepIsRotateLeftOnce | everybit/bitarray.c:327-338 | One step of `bitarray_rotate_left_one` is a one-place left rotation of the range, with everything else kept. |
| Rotation.RangeStepsIsNaive | everybit/bitarray.c:318-324 | `k` steps are the range rotated left one place `k` times. |
| Rotation.RangeStepsModulo | everybit/bitarray.c:302-324 | `k` steps equal the closed-form range rotation by any amount congruent to `k` modulo the length. |
| BitArrays.RotateActsIff | everybit/bitarray.c:274-298 | `bitarray_rotate` applies the rotation (rewrites the range's byte) exactly when the range lies in the array, has at least two bits, has an amount that is not a multiple of its length, and fits in one byte. |
| BitArrays.RotateEffectUndo | everybit/bitarray.c:269-300 | `bitarray_rotate` by `r` and then by `-r` restores the bits. |
| BitArrays.RotateWholeTurns | everybit/bitarray.c:282-285 | Rotating by a whole number of turns of the range changes nothing. |
| BitArrays.MaskedIsNaive | everybit/bitarray.c:269-324 | When it acts, the masked rotation equals `get_shift(length, r)` single steps of the naive rotation. |
| BitArrays.RotateOldIsRotateRight | everybit/bitarray.c:302-316 | `bitarray_rotate_old` by `r` is the range rotated left by `-r`, that is, right by `r`. |
| BitArrays.OldUndoesMasked | everybit/bitarray.c:269-316 | When `bitarray_rotate` acts (`RotateActs`), `bitarray_rotate_old` by `r` undoes `bitarray_rotate` by `r`. |
| BitArrays.RotateSingleBits | everybit/bitarray.c:222-265 | Writing `rotate_single`'s byte rotates the range's bits by the shift and changes no other bit of the buffer. |
| BitArrays.SingleBytePath | everybit/bitarray.c:282-298 | On the path where `bitarray_rotate` acts, rewriting the range's byte with `rotate_single(beginBit, endBit, get_shift)` has the effect `RotateEffect` describes. |
| BitArrays.BitsOfSetBit | everybit/bitarray.c:161-176 | `bitarray_set`'s byte rewrite sets bit `i` to `v` and changes no other bit, padding included. |
| BitArrays.BitArray.constructor | everybit/bitarray.c:114-131 | `bitarray_new(n)` has `n / 8 + (n % 8 != 0)` zero bytes, so every bit is clear. |
| BitArrays.BitArray.Get | everybit/bitarray.c:146-159 | `bitarray_get(i)` for `i < bit_sz` returns bit `i` of the array. |
| BitArrays.BitArray.Set | everybit/bitarray.c:161-176 | `bitarray_set(i, v)` for `i < bit_sz` makes bit `i` equal to `v` and keeps every other bit of the buffer. |
| BitArrays.BitArray.RotateSingle | everybit/bitarray.c:222-265 | `rotate_single` replaces byte `charIndex` with its masked rotation and changes no other byte. |
| BitArrays.BitArray.Rotate | everybit/bitarray.c:269-300 | `bitarray_rotate` leaves the bits as `RotateEffect` says: the range rotated when the rotation acts, unchanged otherwise. |
| BitArrays.BitArray.RotateLeftOne | everybit/bitarray.c:327-338 | After the loop, every bit of the range holds the bit one place after it, the last holds the first, and nothing else changes. |
| BitArrays.BitArray.RotateLeft | everybit/bitarray.c:318-325 | `k` calls of `bitarray_rotate_left_one` give `k` steps of the range. |
| BitArrays.BitArray.RotateOld | everybit/bitarray.c:302-316 | `bitarray_rotate_old` applies `modulo(-r, length)` steps, and does nothing for an empty range. |
| Scenarios.ShiftChecks | everybit/bitarray.c:356-366 | `modulo(16, 8) = 0`, `modulo(0, 8) = 0`, and the four `get_shift` values `test_get_shift` expects. |
| Scenarios.IndexChecks | everybit/bitarray.c:448-468 | The byte-index and end-bit values the index self-tests expect. |
| Scenarios.CleanChecks | everybit/bitarray.c:470-480 | `clean_left(0xFF, 1) = 0x7F`, `clean_left(0xFF, 6) = 0x03`, `clean_right(0xFF, 1) = 0xFE` and `clean_right(0xFF, 6) = 0xC0`. |
| Scenarios.SingleByteChecks | everybit/bitarray.c:389-445 | The bytes `rotate_single` computes in `test_bitarray_rotate`. |
| Scenarios.SetReplay | everybit/bitarray.c:378-387 | After `set(1)`, byte 0 is 2 and byte 1 is 0. After `set(14)`, byte 1 is 64. |
| Scenarios.RotateReplay | everybit/bitarray.c:389-406 | The four no-op rotations keep byte 2, and rotating bits 0 to 6 by one makes it 1. |
| Scenarios.RotateSixReplay | everybit/bitarray.c:410-414 | Byte 3 in a six-bit array rotated by one becomes 33. |
| Scenarios.RotateMiddleReplay | everybit/bitarray.c:418-421 | `0x56` with bits 2 to 5 rotated by one becomes `0x6A`. |
| Scenarios.RotateTopReplay | everybit/bitarray.c:425-428 | `0x56` with bits 2 to 7 rotated by one becomes `0xAA`. |
| Scenarios.RotateSecondByteReplay | everybit/bitarray.c:432-444 | Byte 1 = `0x55` rotated by 11 or by -11 becomes `0xAA`. |

## Left out

- The `printf` tracing in `rotate_single`, `print_bit_array`, `myassert`, the `test_*`
  functions and `run_unit` are console output and a test harness. Their literal values appear
  only as the `Scenarios` lemmas and methods.
- Allocation failure (`calloc`/`malloc` returning NULL) and `bitarray_free` are not modelled. The
  constructor always yields a fresh zeroed buffer, and Dafny's memory is managed.
- `bitarray_get_bit_sz` is the field `bitSz`.
- The sizes of `size_t` and `ssize_t` are not modelled. Amounts and indices are mathematical
  integers, so the overflow of `bit_offset + bit_length` (`bitarray.c:274`) and of
  `-bit_right_amount` (`bitarray.c:315`) cannot occur in the model.
- `get_end_char_index(0, 0)` wraps around in the source. `Layout.EndCharIndex` requires
  `offset + length >= 1`, which every caller meets. The self-tests at `bitarray.c:449-452` pass
  lengths of 1 or more. `bitarray_rotate` computes the same index inline at `bitarray.c:291`,
  and only when the length is at least 2.
- The C `assert`s at `bitarray.c:147`, `164`, `306` and `342` are modelled as `requires`
  clauses. A call that would fail one of them cannot be made in the model.
- The unused `shiftByte` (`bitarray.c:287`) is not computed.
- The model has no multi-byte rotation, because the source has none.
- BitArrays.BitArray.Rotate: the byte is treated as an unsigned `bv8` with logical shifts, as
  the design intends. The signed `char` behaviour of `bitarray.c:242` is modelled separately
  as `SingleByte.RotateSingleByteAsWritten` (see Findings).
- BitArrays.BitArray.RotateSingle: its contract states the new byte; the bit-level meaning of
  that byte is stated by `BitArrays.RotateSingleBits`. The byte it writes is the unsigned
  `SingleByte.RotateSingleByte`, not the sign-extending computation of `bitarray.c:242`.
- BitArrays.BitArray.Set: its contract states the new bits. The byte rewrite behind it is stated
  by `Bytes.SetBit` and `BitArrays.BitsOfSetBit`.
- Bytes.LeftMask, Bytes.RightMask, Bytes.EndMask and Bytes.BeginMask are defined by recurrence
  (each entry is the previous one shifted). The literal table values are proved in
  `Bytes.MaskTables`.

## Findings

| source | as written | input that shows it | evidently intended | confidence | as-written member | corrected member |
|---|---|---|---|---|---|---|
| everybit/bitarray.c:238-242 | `c1` is a `char`. Where `char` is signed and `>>` on a negative value is an arithmetic shift (both implementation-defined), `c1 >> shiftBit` copies bit 7 into the vacated top bits when the range reaches bit 7 and bit 7 is set. Where `char` is unsigned, the shift is logical and the byte comes out right. | An 8-bit array holding `0x80`, `bitarray_rotate(0, 8, 1)`: the result is `0xC0` with a signed `char`. | A rotation: `0x40`. | not executed | SingleByte.AsWrittenBreaksRotation | SingleByte.RotateSingleByteCorrect |
