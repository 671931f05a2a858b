/** Byte-order helpers of the JOYBUS tester: the full four-byte reversal and
    the exchange of the two 16-bit halves of a 32-bit word. */
module ByteOrder {

  /** Byte k of a word, byte 0 being the least significant one. */
  function Byte(x: bv32, k: nat): bv8
    requires k < 4
  {
    if k == 0 then (x & 0xFF) as bv8
    else if k == 1 then ((x >> 8) & 0xFF) as bv8
    else if k == 2 then ((x >> 16) & 0xFF) as bv8
    else (x >> 24) as bv8
  }

  /** The upper (bits 16..31) and lower (bits 0..15) halves of a word. */
  function Upper(x: bv32): bv16 {
    (x >> 16) as bv16
  }

  function Lower(x: bv32): bv16 {
    (x & 0xFFFF) as bv16
  }

  /** The word whose bytes, most significant first, are b3, b2, b1, b0. */
  function Word(b3: bv8, b2: bv8, b1: bv8, b0: bv8): (r: bv32)
    ensures Byte(r, 3) == b3 && Byte(r, 2) == b2 && Byte(r, 1) == b1 && Byte(r, 0) == b0
  {
    (b3 as bv32 << 24) | (b2 as bv32 << 16) | (b1 as bv32 << 8) | b0 as bv32
  }

  /** Two words agree when all four of their bytes do. */
  lemma ByteExtensionality(x: bv32, y: bv32)
    requires forall k: nat :: k < 4 ==> Byte(x, k) == Byte(y, k)
    ensures x == y
  {
    assert Byte(x, 0) == Byte(y, 0);
    assert Byte(x, 1) == Byte(y, 1);
    assert Byte(x, 2) == Byte(y, 2);
    assert Byte(x, 3) == Byte(y, 3);
  }

  /** Splitting a word into its bytes and packing them again gives it back. */
  lemma WordOfBytes(x: bv32)
    ensures Word(Byte(x, 3), Byte(x, 2), Byte(x, 1), Byte(x, 0)) == x
  {
    ByteExtensionality(Word(Byte(x, 3), Byte(x, 2), Byte(x, 1), Byte(x, 0)), x);
  }

  /** `swap_bytes`: byte k of the result is byte 3 - k of the input. */
  function SwapBytes(x: bv32): (r: bv32)
    ensures forall k: nat :: k < 4 ==> Byte(r, k) == Byte(x, 3 - k)
  {
    ((x & 0xFF00_0000) >> 24)
    | ((x & 0x00FF_0000) >> 8)
    | ((x & 0x0000_FF00) << 8)
    | ((x & 0x0000_00FF) << 24)
  }

  /** `swap_bytes_half`: the two 16-bit halves change places. */
  function SwapBytesHalf(x: bv32): (r: bv32)
    ensures Upper(r) == Lower(x) && Lower(r) == Upper(x)
  {
    ((x & 0xFFFF_0000) >> 16) | ((x & 0x0000_FFFF) << 16)
  }

  /** A word is determined by its two halves. */
  lemma HalfExtensionality(x: bv32, y: bv32)
    requires Upper(x) == Upper(y) && Lower(x) == Lower(y)
    ensures x == y
  {
  }

  /** Reversing the bytes twice is the identity, and so is swapping halves twice. */
  lemma SwapBytesInvolutive(x: bv32)
    ensures SwapBytes(SwapBytes(x)) == x
  {
    ByteExtensionality(SwapBytes(SwapBytes(x)), x);
  }

  lemma SwapBytesHalfInvolutive(x: bv32)
    ensures SwapBytesHalf(SwapBytesHalf(x)) == x
  {
    HalfExtensionality(SwapBytesHalf(SwapBytesHalf(x)), x);
  }

  /** Reading a big-endian word whose bytes arrived in the order b0, b1, b2, b3
      and reversing it yields the little-endian value of those bytes. */
  lemma SwapReadsLittleEndian(b0: bv8, b1: bv8, b2: bv8, b3: bv8)
    ensures SwapBytes(Word(b0, b1, b2, b3)) == Word(b3, b2, b1, b0)
  {
    ByteExtensionality(SwapBytes(Word(b0, b1, b2, b3)), Word(b3, b2, b1, b0));
  }
}
