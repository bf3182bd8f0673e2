/** Packing key bits into bytes, least significant bit first, with a possibly incomplete last byte. */
module BitPacking {

  const BITS_PER_VALUE: nat := 8

  /** An array of bytes whose last byte may be incomplete; 0 and 8 valid bits mean the same. */
  datatype JaggedBlock = JaggedBlock(bytes: seq<bv8>, bitsInLastByte: nat) {

    function NumBits(): int {
      var total := |bytes| * BITS_PER_VALUE;
      if bitsInLastByte != 0 then total - (BITS_PER_VALUE - bitsInLastByte) else total
    }
  }

  predicate Bit(b: bv8, k: nat)
    requires k < 8
  {
    (b >> k) & 1 == 1
  }

  /** The value of each bit of a byte, from the first one packed to the last. */
  const WEIGHTS: seq<bv8> := [1, 2, 4, 8, 16, 32, 64, 128]

  // Bit k of a byte is its binary digit of weight 2^k.
  lemma BitIsDigit(b: bv8, k: nat)
    requires k < 8
    ensures Bit(b, k) <==> b / WEIGHTS[k] % 2 == 1
  {
    if k == 0 { } else if k == 1 { } else if k == 2 { } else if k == 3 { }
    else if k == 4 { } else if k == 5 { } else if k == 6 { } else { }
  }

  /** The buffer after one more bit has been or-ed in at position k. */
  function WithBit(b: bv8, k: nat, bit: bool): bv8
    requires k < 8
  {
    b | ((if bit then 1 else 0) << k)
  }

  lemma WithBitSets(b: bv8, k: nat, bit: bool, j: nat)
    requires k < 8 && j < 8
    ensures Bit(WithBit(b, k, bit), j) == if j == k then Bit(b, k) || bit else Bit(b, j)
  {
    if k == 0 { } else if k == 1 { } else if k == 2 { } else if k == 3 { }
    else if k == 4 { } else if k == 5 { } else if k == 6 { } else { }
  }

  lemma ZeroHasNoBits(k: nat)
    requires k < 8
    ensures !Bit(0, k)
  {
  }

  /** The byte holding up to eight bits, the first one in the lowest place. */
  function Byte(bits: seq<bool>): bv8
    requires |bits| <= 8
  {
    if bits == [] then 0
    else
      var last := |bits| - 1;
      WithBit(Byte(bits[..last]), last, bits[last])
  }

  lemma {:induction false} ByteBits(bits: seq<bool>, k: nat)
    requires |bits| <= 8 && k < 8
    ensures Bit(Byte(bits), k) == (k < |bits| && bits[k])
  {
    if bits == [] {
      ZeroHasNoBits(k);
    } else {
      var last := |bits| - 1;
      ByteBits(bits[..last], k);
      WithBitSets(Byte(bits[..last]), last, bits[last], k);
    }
  }

  /** The bytes that are complete once all of bits has been packed. */
  function FullBytes(bits: seq<bool>): seq<bv8> {
    seq(|bits| / 8, i requires 0 <= i < |bits| / 8 => Byte(bits[8 * i..8 * i + 8]))
  }

  /** The bits not yet part of a complete byte. */
  function Pending(bits: seq<bool>): (p: seq<bool>)
    ensures |p| == |bits| % 8
  {
    bits[8 * (|bits| / 8)..]
  }

  /** The block that holds exactly these bits. */
  function Pack(bits: seq<bool>): JaggedBlock {
    if |bits| % 8 == 0 then JaggedBlock(FullBytes(bits), if bits == [] then 0 else 8)
    else JaggedBlock(FullBytes(bits) + [Byte(Pending(bits))], |bits| % 8)
  }

  /** The first NumBits() bits of a block, least significant first within each byte. */
  function Unpack(block: JaggedBlock): seq<bool>
    requires 0 <= block.NumBits() <= 8 * |block.bytes|
  {
    seq(block.NumBits(), i requires 0 <= i < block.NumBits() => Bit(block.bytes[i / 8], i % 8))
  }

  lemma PackSize(bits: seq<bool>)
    ensures Pack(bits).NumBits() == |bits|
    ensures |Pack(bits).bytes| == (|bits| + 7) / 8
    ensures Pack(bits).bitsInLastByte == if bits == [] then 0 else (|bits| - 1) % 8 + 1
  {
  }

  // Every bit of the packed bytes: the packed ones in order, then zero padding.
  lemma PackBits(bits: seq<bool>, i: nat)
    requires i < 8 * |Pack(bits).bytes|
    ensures Bit(Pack(bits).bytes[i / 8], i % 8) == (i < |bits| && bits[i])
  {
    var b, k := i / 8, i % 8;
    if b < |bits| / 8 {
      ByteBits(bits[8 * b..8 * b + 8], k);
    } else {
      ByteBits(Pending(bits), k);
    }
  }

  // Packing loses nothing: reading NumBits() bits back gives the packed bits.
  lemma UnpackPack(bits: seq<bool>)
    ensures Pack(bits).NumBits() == |bits|
    ensures Unpack(Pack(bits)) == bits
  {
    PackSize(bits);
    forall i: nat | i < |bits| ensures Bit(Pack(bits).bytes[i / 8], i % 8) == bits[i] {
      PackBits(bits, i);
    }
  }

  lemma PackInjective(a: seq<bool>, b: seq<bool>)
    ensures Pack(a) == Pack(b) <==> a == b
  {
    if Pack(a) == Pack(b) {
      UnpackPack(a);
      UnpackPack(b);
    }
  }

  // The byte sequence alone forgets only how much of the last byte is padding.
  lemma PackBytesAgree(a: seq<bool>, b: seq<bool>)
    requires |a| == |b|
    ensures Pack(a).bytes == Pack(b).bytes <==> a == b
  {
    if Pack(a).bytes == Pack(b).bytes {
      PackInjective(a, b);
    }
  }

  lemma ByteAppend(bits: seq<bool>, bit: bool)
    requires |bits| < 8
    ensures Byte(bits + [bit]) == WithBit(Byte(bits), |bits|, bit)
  {
  }

  lemma AppendBit(bits: seq<bool>, bit: bool)
    ensures var all := bits + [bit];
            if |bits| % 8 == 7
            then FullBytes(all) == FullBytes(bits) + [WithBit(Byte(Pending(bits)), 7, bit)] && Pending(all) == []
            else FullBytes(all) == FullBytes(bits) && Pending(all) == Pending(bits) + [bit]
                 && Byte(Pending(all)) == WithBit(Byte(Pending(bits)), |bits| % 8, bit)
  {
    hide Byte, WithBit;
    var all := bits + [bit];
    forall i | 0 <= i < |bits| / 8 ensures all[8 * i..8 * i + 8] == bits[8 * i..8 * i + 8] { }
    if |bits| % 8 == 7 {
      var n := |bits| / 8;
      assert all[8 * n..8 * n + 8] == Pending(bits) + [bit];
    } else {
      assert Pending(all) == Pending(bits) + [bit];
    }
    ByteAppend(Pending(bits), bit);
  }

  lemma NothingPending()
    ensures Byte([]) == 0
  {
  }

  /** The growing output of the packing loops: a list of bytes and the fill of its last one. */
  class JaggedDataBlock {
    var bytes: seq<bv8>
    var bitsInLastByte: nat

    constructor ()
      ensures bytes == [] && bitsInLastByte == 0 && Holds([], 0, 0)
    {
      bytes, bitsInLastByte := [], 0;
    }

    function Value(): JaggedBlock
      reads this
    {
      JaggedBlock(bytes, bitsInLastByte)
    }

    /** This block, together with the bit buffer beside it, holds exactly bits. */
    ghost predicate Holds(bits: seq<bool>, offset: nat, value: bv8)
      reads this
    {
      && bytes == FullBytes(bits)
      && bitsInLastByte == (if |bits| < 8 then 0 else 8)
      && offset == |bits| % 8
      && value == Byte(Pending(bits))
    }

    /** Shift one bit into the buffer; a full buffer moves to the end of the block. */
    method AddBit(bit: bool, offset: nat, value: bv8, ghost bits: seq<bool>) returns (offset': nat, value': bv8)
      requires Holds(bits, offset, value)
      modifies this
      ensures Holds(bits + [bit], offset', value')
    {
      hide FullBytes, Pending, Byte, WithBit;
      AppendBit(bits, bit);
      NothingPending();
      value' := WithBit(value, offset, bit);
      offset' := offset + 1;
      if offset' == BITS_PER_VALUE {
        bytes := bytes + [value'];
        bitsInLastByte := BITS_PER_VALUE;
        value' := 0;
        offset' := 0;
      }
    }

    /** Store a last byte that was not filled. */
    method Flush(offset: nat, value: bv8, ghost bits: seq<bool>)
      requires Holds(bits, offset, value)
      modifies this
      ensures Value() == Pack(bits)
    {
      if offset != 0 {
        bytes := bytes + [value];
        bitsInLastByte := offset;
      }
    }
  }
}
