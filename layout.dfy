/** Storage layout: how many bytes hold `bit_sz` bits, which byte holds a bit,
    where a range starts and ends inside its bytes, and the sequence of bits a
    byte buffer stands for (logical bit `i` is bit `i % 8` of byte `i / 8`). */
module Layout {
  import opened Bytes
  import opened ModArith

  /** The buffer size `bitarray_new` asks for: `ceil(bitSz / 8)` bytes. */
  function ByteCount(bitSz: nat): (k: nat)
    ensures bitSz <= k * 8 < bitSz + 8
  {
    bitSz / 8 + (if bitSz % 8 == 0 then 0 else 1)
  }

  /** `get_char_index`: the byte holding bit `i`. */
  function CharIndex(i: nat): (c: nat)
    ensures c * 8 <= i < c * 8 + 8
  {
    i / 8
  }

  /** `get_end_char_index`: the byte holding the last bit of a non-empty range. */
  function EndCharIndex(offset: nat, length: nat): (c: nat)
    requires offset + length >= 1
    ensures c * 8 <= offset + length - 1 < c * 8 + 8
  {
    CharIndex(offset + length - 1)
  }

  /** `get_end_bit`: how many bits separate the end of the range from the next
      byte boundary, that is, the bits of the range's last byte that lie above it. */
  function EndBit(offset: nat, length: nat): (e: nat)
    ensures e < 8
    ensures (offset + length + e) % 8 == 0
  {
    (8 - (offset + length) % 8) % 8
  }

  /** When a non-empty range starts and ends in the same byte, the bits below it,
      the range and the bits above it fill that byte exactly; so every mask-table
      index the single-byte rotation uses lies in 0..8. */
  lemma SingleByteWidths(offset: nat, length: nat)
    requires length >= 1
    requires CharIndex(offset) == EndCharIndex(offset, length)
    ensures offset % 8 + length + EndBit(offset, length) == 8
  {
    var c := offset / 8;
    assert offset == c * 8 + offset % 8;
    assert offset % 8 + length <= 8;
    if offset % 8 + length == 8 {
      assert offset + length == (c + 1) * 8;
    } else {
      assert (offset + length) % 8 == offset % 8 + length;
    }
  }

  /** Bit `p` is bit `k` of byte `c`; naming the two keeps `/` and `%` out of later proofs. */
  lemma SplitIndex(p: nat) returns (c: nat, k: nat)
    ensures p == 8 * c + k && k < 8
  {
    c := p / 8;
    k := p % 8;
  }

  /** The bits a byte buffer stands for, including the padding bits of its last byte:
      the eight bits of each byte in turn, least significant first. */
  function BitsOf(bytes: seq<bv8>): (bits: seq<bool>)
    ensures |bits| == |bytes| * 8
  {
    if |bytes| == 0 then [] else BitsOf(bytes[..|bytes| - 1]) + ByteBits(bytes[|bytes| - 1])
  }

  /** Bit `k` of byte `c` is bit `8 * c + k` of the buffer. */
  lemma {:induction false} BitsOfAtPos(bytes: seq<bv8>, c: nat, k: nat)
    requires c < |bytes| && k < 8
    ensures 8 * c + k < |bytes| * 8
    ensures BitsOf(bytes)[8 * c + k] == BitOf(bytes[c], k)
  {
    var n := |bytes|;
    var init := bytes[..n - 1];
    if c < n - 1 {
      assert BitsOf(init)[8 * c + k] == BitOf(init[c], k) by {
        BitsOfAtPos(init, c, k);
      }
      assert BitsOf(bytes)[8 * c + k] == BitsOf(init)[8 * c + k];
    } else {
      assert BitsOf(bytes)[8 * c + k] == ByteBits(bytes[n - 1])[k];
    }
  }

  /** Bit `i` of the buffer is bit `i % 8` of byte `i / 8`. */
  lemma BitsOfAt(bytes: seq<bv8>, i: nat)
    requires i < |bytes| * 8
    ensures i / 8 < |bytes|
    ensures BitsOf(bytes)[i] == BitOf(bytes[i / 8], i % 8)
  {
    BitsOfAtPos(bytes, i / 8, i % 8);
  }

  /** When bit `k` of the new byte `b` is bit `j` of the byte it replaces, the bit
      array's bit at `k` in that byte after the write is its bit at `j` before. */
  lemma BitsOfMoveBit(bytes: seq<bv8>, c: nat, b: bv8, k: nat, j: nat)
    requires c < |bytes| && k < 8 && j < 8
    requires BitOf(b, k) == BitOf(bytes[c], j)
    ensures 8 * c + k < |bytes| * 8 && 8 * c + j < |bytes| * 8
    ensures BitsOf(bytes[c := b])[8 * c + k] == BitsOf(bytes)[8 * c + j]
  {
    BitsOfAtPos(bytes[c := b], c, k);
    BitsOfAtPos(bytes, c, j);
  }

  /** Replacing byte `j` changes the bits of byte `j` and nothing else. */
  lemma BitsOfUpdate(bytes: seq<bv8>, j: nat, b: bv8)
    requires j < |bytes|
    ensures |BitsOf(bytes[j := b])| == |BitsOf(bytes)|
    ensures forall i | 0 <= i < |bytes| * 8 ::
      BitsOf(bytes[j := b])[i] == if i / 8 == j then BitOf(b, i % 8) else BitsOf(bytes)[i]
  {
    forall i | 0 <= i < |bytes| * 8
      ensures BitsOf(bytes[j := b])[i] == if i / 8 == j then BitOf(b, i % 8) else BitsOf(bytes)[i]
    {
      BitsOfAt(bytes[j := b], i);
      BitsOfAt(bytes, i);
    }
  }

  /** A zero-filled buffer stands for bits that are all clear. */
  lemma BitsOfZeros(bytes: seq<bv8>)
    requires forall j | 0 <= j < |bytes| :: bytes[j] == 0
    ensures BitsOf(bytes) == seq(|bytes| * 8, _ => false)
  {
    forall i | 0 <= i < |bytes| * 8
      ensures BitsOf(bytes)[i] == false
    {
      BitsOfAt(bytes, i);
      ZeroBit(i % 8);
    }
  }

  /** Two buffers of the same length that stand for the same bits are the same bytes. */
  lemma BitsOfInjective(a: seq<bv8>, b: seq<bv8>)
    requires |a| == |b| && BitsOf(a) == BitsOf(b)
    ensures a == b
  {
    forall c | 0 <= c < |a|
      ensures a[c] == b[c]
    {
      forall k | 0 <= k < 8
        ensures BitOf(a[c], k) == BitOf(b[c], k)
      {
        BitsOfAtPos(a, c, k);
        BitsOfAtPos(b, c, k);
      }
      ByteExt(a[c], b[c]);
    }
  }
}
