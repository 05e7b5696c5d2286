/**
 * Bit, byte and word size helpers of the Verilated runtime
 * (include/verilatedos.h). Bit numbers and widths are unbounded natural
 * numbers, where the C macros take 32-bit values; shifts and masks are the
 * macros' own.
 */
module VlOs {

  const ByteSize: nat := 8        // bits in a CData
  const ShortSize: nat := 16      // bits in an SData
  const IDataSize: nat := 32      // bits in an IData
  const QuadSize: nat := 64       // bits in a QData
  const EDataSize: nat := 32      // bits in one EData word of a wide value
  const EDataSizeLog2: nat := 5

  /** Size limit of the value-to-string conversions. */
  const ValueStringMaxWords: nat := 64
  const ValueStringMaxChars: nat := ValueStringMaxWords * 4

  /** Bit i of a 32-bit word. */
  predicate Bit32(x: bv32, i: bv32)
    requires i < 32
  {
    x & (1 << i) != 0
  }

  /** Bit i of a 64-bit word. */
  predicate Bit64(x: bv64, i: bv64)
    requires i < 64
  {
    x & (1 << i) != 0
  }

  /** VL_BYTES_I: bytes needed for nbits bits, ceil(nbits / 8). */
  function BytesI(nbits: nat): (r: nat)
    ensures r * ByteSize >= nbits
    ensures r > 0 ==> (r - 1) * ByteSize < nbits
  {
    (nbits + (ByteSize - 1)) / ByteSize
  }

  /** VL_WORDS_I: 32-bit words needed for nbits bits, ceil(nbits / 32). */
  function WordsI(nbits: nat): (r: nat)
    ensures r * EDataSize >= nbits
    ensures r > 0 ==> (r - 1) * EDataSize < nbits
  {
    (nbits + (EDataSize - 1)) / EDataSize
  }

  /** VL_WQ_WORDS_E: words of a quad. */
  function WqWordsE(): nat
  {
    WordsI(QuadSize)
  }

  lemma OneBitNeedsOneByteAndOneWord()
    ensures BytesI(1) == 1 && WordsI(1) == 1
    ensures BytesI(0) == 0 && WordsI(0) == 0
  {
  }

  lemma QuadIsTwoWords()
    ensures WqWordsE() == 2
  {
  }

  lemma ValueStringCharsIsFourWords()
    ensures ValueStringMaxChars == 4 * ValueStringMaxWords == 256
  {
  }

  /** VL_MASK_I: ones in the low (nbits mod 32) bits, or all 32 bits when that is 0. */
  function MaskI(nbits: bv32): (r: bv32)
    ensures forall i: bv32 | i < 32 :: Bit32(r, i) <==> (nbits & 31 == 0 || i < nbits & 31)
  {
    if nbits & 31 != 0 then (1 << (nbits & 31)) - 1 else !0
  }

  /** VL_MASK_Q: the same rule modulo 64 over a quad. */
  function MaskQ(nbits: bv64): (r: bv64)
    ensures forall i: bv64 | i < 64 :: Bit64(r, i) <==> (nbits & 63 == 0 || i < nbits & 63)
  {
    if nbits & 63 != 0 then (1 << (nbits & 63)) - 1 else !0
  }

  /** VL_MASK_E: an EData is an IData. */
  function MaskE(nbits: bv32): (r: bv32)
    ensures r == MaskI(nbits)
  {
    MaskI(nbits)
  }

  /** VL_BITWORD_E: the word holding bit `bit` of a wide value. */
  function BitWordE(bit: bv32): (w: bv32)
    ensures w < 0x800_0000 && w * 32 <= bit && bit - w * 32 < 32
  {
    bit >> EDataSizeLog2
  }

  /** VL_BITBIT_E: the position of bit `bit` inside its word. */
  function BitBitE(bit: bv32): (b: bv32)
    ensures b < 32
    ensures bit == BitWordE(bit) * 32 + b
  {
    bit & 31
  }

  /** VL_BITISSET_I: non-zero iff bit (bit mod 32) of a word is set. */
  function BitIsSetI(data: bv32, bit: bv32): (r: bv32)
    ensures r != 0 <==> Bit32(data, bit & 31)
  {
    data & (1 << (bit & 31))
  }

  /** VL_BITISSET_Q: non-zero iff bit (bit mod 64) of a quad is set. */
  function BitIsSetQ(data: bv64, bit: bv64): (r: bv64)
    ensures r != 0 <==> Bit64(data, bit & 63)
  {
    data & (1 << (bit & 63))
  }

  /** VL_BITISSET_W: non-zero iff bit BitBitE(bit) of word BitWordE(bit) is set. */
  function BitIsSetW(data: seq<bv32>, bit: bv32): (r: bv32)
    requires BitWordE(bit) as int < |data|
    ensures r != 0 <==> Bit32(data[BitWordE(bit)], BitBitE(bit))
  {
    data[BitWordE(bit)] & (1 << BitBitE(bit))
  }
}
