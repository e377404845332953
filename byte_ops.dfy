/**
 * Big-endian composition of Kotlin integers from bytes
 * (core/common/src/internal/-ByteOps.kt).
 *
 * Kotlin's fixed-width integers are modelled by their two's-complement bit
 * patterns: Byte = bv8, Short = bv16, Int = bv32, Long = bv64. A widening
 * conversion (`toInt`, `toLong`) sign-extends, a narrowing one (`toShort`)
 * keeps the low bits, and the `and` extension that the code uses widens its
 * left operand before masking it. Reading a bit pattern as an unsigned number
 * is Dafny's `as int`.
 */
module ByteOps {

  type Byte = bv8
  type Short = bv16
  type Int = bv32
  type Long = bv64

  /** Kotlin's unsigned integers, as their values. */
  type UShort = x: int | 0 <= x < 0x1_0000
  type UInt = x: int | 0 <= x < 0x1_0000_0000
  type ULong = x: int | 0 <= x < 0x1_0000_0000_0000_0000

  // ---------------------------------------------------------------------
  // Kotlin conversions and the `and` extension of kotlinx.io

  /** `Byte.toInt()`: sign extension. */
  function ByteToInt(b: Byte): Int {
    if b < 0x80 then b as Int else (b as Int) | 0xFFFF_FF00
  }

  /** `Byte.toLong()`: sign extension. */
  function ByteToLong(b: Byte): Long {
    if b < 0x80 then b as Long else (b as Long) | 0xFFFF_FFFF_FFFF_FF00
  }

  /** `Int.toLong()`: sign extension. */
  function IntToLong(i: Int): Long {
    if i < 0x8000_0000 then i as Long else (i as Long) | 0xFFFF_FFFF_0000_0000
  }

  /** `Int.toShort()`: keeps the low 16 bits. */
  function IntToShort(i: Int): Short {
    (i & 0xFFFF) as Short
  }

  /** `byte and mask` for an Int mask: the byte is widened first. */
  function ByteAndInt(b: Byte, mask: Int): Int {
    ByteToInt(b) & mask
  }

  /** `byte and mask` for a Long mask. */
  function ByteAndLong(b: Byte, mask: Long): Long {
    ByteToLong(b) & mask
  }

  /** `int and mask` for a Long mask. */
  function IntAndLong(i: Int, mask: Long): Long {
    IntToLong(i) & mask
  }

  // ---------------------------------------------------------------------
  // The four composition functions of -ByteOps.kt

  function AsShort(byte1: Byte, byte2: Byte): Short {
    IntToShort((ByteAndInt(byte1, 0xff) << 8) | ByteAndInt(byte2, 0xff))
  }

  function AsInt(byte1: Byte, byte2: Byte, byte3: Byte, byte4: Byte): Int {
    (ByteAndInt(byte1, 0xff) << 24)
    | (ByteAndInt(byte2, 0xff) << 16)
    | (ByteAndInt(byte3, 0xff) << 8)
    | ByteAndInt(byte4, 0xff)
  }

  /** The two-Int overload of `asLong`. */
  function AsLongOfInts(int1: Int, int2: Int): Long {
    (IntAndLong(int1, 0xFFFF_FFFF) << 32) | IntAndLong(int2, 0xFFFF_FFFF)
  }

  /** The eight-Byte overload of `asLong`. */
  function AsLong(byte1: Byte, byte2: Byte, byte3: Byte, byte4: Byte,
                  byte5: Byte, byte6: Byte, byte7: Byte, byte8: Byte): Long {
    (ByteAndLong(byte1, 0xff) << 56)
    | (ByteAndLong(byte2, 0xff) << 48)
    | (ByteAndLong(byte3, 0xff) << 40)
    | (ByteAndLong(byte4, 0xff) << 32)
    | (ByteAndLong(byte5, 0xff) << 24)
    | (ByteAndLong(byte6, 0xff) << 16)
    | (ByteAndLong(byte7, 0xff) << 8)
    | ByteAndLong(byte8, 0xff)
  }

  // ---------------------------------------------------------------------
  // Byte order reversal (`reverseBytes`) and unsigned reinterpretation

  function ReverseShort(x: Short): Short {
    ((x & 0xFF00) >> 8) | ((x & 0x00FF) << 8)
  }

  function ReverseInt(x: Int): Int {
    ((x & 0xFF00_0000) >> 24) | ((x & 0x00FF_0000) >> 8)
    | ((x & 0x0000_FF00) << 8) | ((x & 0x0000_00FF) << 24)
  }

  function ReverseLong(x: Long): Long {
    ((x & 0xFF00_0000_0000_0000) >> 56) | ((x & 0x00FF_0000_0000_0000) >> 40)
    | ((x & 0x0000_FF00_0000_0000) >> 24) | ((x & 0x0000_00FF_0000_0000) >> 8)
    | ((x & 0x0000_0000_FF00_0000) << 8) | ((x & 0x0000_0000_00FF_0000) << 24)
    | ((x & 0x0000_0000_0000_FF00) << 40) | ((x & 0x0000_0000_0000_00FF) << 56)
  }

  /** `Short.toUShort()`. */
  function ShortToUShort(x: Short): UShort {
    x as int
  }

  /** `Int.toUInt()`. */
  function IntToUInt(x: Int): UInt {
    x as int
  }

  /** `Long.toULong()`. */
  function LongToULong(x: Long): ULong {
    x as int
  }

  // ---------------------------------------------------------------------
  // Byte extraction, most significant byte first

  function ShortBytes(x: Short): seq<Byte> {
    [(x >> 8) as Byte, (x & 0xFF) as Byte]
  }

  function IntBytes(x: Int): seq<Byte> {
    [(x >> 24) as Byte, ((x >> 16) & 0xFF) as Byte, ((x >> 8) & 0xFF) as Byte, (x & 0xFF) as Byte]
  }

  function LongBytes(x: Long): seq<Byte> {
    [(x >> 56) as Byte, ((x >> 48) & 0xFF) as Byte, ((x >> 40) & 0xFF) as Byte, ((x >> 32) & 0xFF) as Byte,
     ((x >> 24) & 0xFF) as Byte, ((x >> 16) & 0xFF) as Byte, ((x >> 8) & 0xFF) as Byte, (x & 0xFF) as Byte]
  }

  // ---------------------------------------------------------------------
  // Masking: `and 0xff` undoes the sign extension of the widening

  lemma MaskedByte(b: Byte)
    ensures ByteAndInt(b, 0xff) == b as Int
    ensures ByteAndLong(b, 0xff) == b as Long
    ensures b >= 0x80 ==> ByteToInt(b) != b as Int && ByteToLong(b) != b as Long
  {}

  /** Widening an Int to a Long leaves the high half clear, whether or not
      the sign extension then sets it. */
  lemma WidenedIntMasked(i: Int)
    ensures (i as Long) & 0xFFFF_FFFF == i as Long
    ensures ((i as Long) | 0xFFFF_FFFF_0000_0000) & 0xFFFF_FFFF == i as Long
    ensures (i as Long) | 0xFFFF_FFFF_0000_0000 != i as Long
  {}

  lemma MaskedInt(i: Int)
    ensures IntAndLong(i, 0xFFFF_FFFF) == i as Long
    ensures i >= 0x8000_0000 ==> IntToLong(i) != i as Long
  {
    if i < 0x8000_0000 {
      assert IntAndLong(i, 0xFFFF_FFFF) == i as Long by {
        assert IntToLong(i) == i as Long;
        WidenedIntMasked(i);
      }
    } else {
      assert IntToLong(i) == (i as Long) | 0xFFFF_FFFF_0000_0000;
      WidenedIntMasked(i);
    }
  }

  // ---------------------------------------------------------------------
  // Each composition is the concatenation of the bit patterns of its inputs

  lemma AsShortConcat(b1: Byte, b2: Byte)
    ensures AsShort(b1, b2) == ((b1 as Short) << 8) | (b2 as Short)
  {
    MaskedByte(b1); MaskedByte(b2);
  }

  lemma AsIntConcat(b1: Byte, b2: Byte, b3: Byte, b4: Byte)
    ensures AsInt(b1, b2, b3, b4)
         == ((b1 as Int) << 24) | ((b2 as Int) << 16) | ((b3 as Int) << 8) | (b4 as Int)
  {
    MaskedByte(b1); MaskedByte(b2); MaskedByte(b3); MaskedByte(b4);
  }

  lemma AsLongOfIntsConcat(i1: Int, i2: Int)
    ensures AsLongOfInts(i1, i2) == ((i1 as Long) << 32) | (i2 as Long)
  {
    MaskedInt(i1); MaskedInt(i2);
  }

  lemma AsLongConcat(b1: Byte, b2: Byte, b3: Byte, b4: Byte, b5: Byte, b6: Byte, b7: Byte, b8: Byte)
    ensures AsLong(b1, b2, b3, b4, b5, b6, b7, b8)
         == ((b1 as Long) << 56) | ((b2 as Long) << 48) | ((b3 as Long) << 40) | ((b4 as Long) << 32)
          | ((b5 as Long) << 24) | ((b6 as Long) << 16) | ((b7 as Long) << 8) | (b8 as Long)
  {
    MaskedByte(b1); MaskedByte(b2); MaskedByte(b3); MaskedByte(b4);
    MaskedByte(b5); MaskedByte(b6); MaskedByte(b7); MaskedByte(b8);
  }

  // Unsigned values of concatenated bit patterns. The solver handles these
  // only when the concatenation is written out, hence the separate lemmas.

  lemma ConcatValue16(b1: Byte, b2: Byte)
    ensures (((b1 as Short) << 8) | (b2 as Short)) as int == b1 as int * 0x100 + b2 as int
  {}

  lemma ConcatValue32(b1: Byte, b2: Byte, b3: Byte, b4: Byte)
    ensures (((b1 as Int) << 24) | ((b2 as Int) << 16) | ((b3 as Int) << 8) | (b4 as Int)) as int
         == b1 as int * 0x100_0000 + b2 as int * 0x1_0000 + b3 as int * 0x100 + b4 as int
  {}

  lemma ConcatValue64Halves(i1: Int, i2: Int)
    ensures (((i1 as Long) << 32) | (i2 as Long)) as int == i1 as int * 0x1_0000_0000 + i2 as int
  {}

  lemma ConcatValue64(b1: Byte, b2: Byte, b3: Byte, b4: Byte, b5: Byte, b6: Byte, b7: Byte, b8: Byte)
    ensures (((b1 as Long) << 56) | ((b2 as Long) << 48) | ((b3 as Long) << 40) | ((b4 as Long) << 32)
          | ((b5 as Long) << 24) | ((b6 as Long) << 16) | ((b7 as Long) << 8) | (b8 as Long)) as int
         == b1 as int * 0x100_0000_0000_0000 + b2 as int * 0x1_0000_0000_0000
          + b3 as int * 0x100_0000_0000 + b4 as int * 0x1_0000_0000
          + b5 as int * 0x100_0000 + b6 as int * 0x1_0000 + b7 as int * 0x100 + b8 as int
  {}

  // ---------------------------------------------------------------------
  // Values: read as unsigned, every composition is the big-endian sum of
  // its masked inputs

  lemma AsShortValue(b1: Byte, b2: Byte)
    ensures AsShort(b1, b2) as int == b1 as int * 0x100 + b2 as int
  {
    AsShortConcat(b1, b2);
    ConcatValue16(b1, b2);
  }

  lemma AsIntValue(b1: Byte, b2: Byte, b3: Byte, b4: Byte)
    ensures AsInt(b1, b2, b3, b4) as int
         == b1 as int * 0x100_0000 + b2 as int * 0x1_0000 + b3 as int * 0x100 + b4 as int
  {
    AsIntConcat(b1, b2, b3, b4);
    ConcatValue32(b1, b2, b3, b4);
  }

  lemma AsLongOfIntsValue(i1: Int, i2: Int)
    ensures AsLongOfInts(i1, i2) as int == i1 as int * 0x1_0000_0000 + i2 as int
  {
    AsLongOfIntsConcat(i1, i2);
    ConcatValue64Halves(i1, i2);
  }

  lemma AsLongValue(b1: Byte, b2: Byte, b3: Byte, b4: Byte, b5: Byte, b6: Byte, b7: Byte, b8: Byte)
    ensures AsLong(b1, b2, b3, b4, b5, b6, b7, b8) as int
         == b1 as int * 0x100_0000_0000_0000 + b2 as int * 0x1_0000_0000_0000
          + b3 as int * 0x100_0000_0000 + b4 as int * 0x1_0000_0000
          + b5 as int * 0x100_0000 + b6 as int * 0x1_0000 + b7 as int * 0x100 + b8 as int
  {
    AsLongConcat(b1, b2, b3, b4, b5, b6, b7, b8);
    ConcatValue64(b1, b2, b3, b4, b5, b6, b7, b8);
  }

  /** The two `asLong` overloads agree: a Long composed from two big-endian
      Ints equals the Long composed from their eight bytes. */
  lemma AsLongOfIntsSplit(b1: Byte, b2: Byte, b3: Byte, b4: Byte, b5: Byte, b6: Byte, b7: Byte, b8: Byte)
    ensures AsLongOfInts(AsInt(b1, b2, b3, b4), AsInt(b5, b6, b7, b8))
         == AsLong(b1, b2, b3, b4, b5, b6, b7, b8)
  {
    AsIntConcat(b1, b2, b3, b4);
    AsIntConcat(b5, b6, b7, b8);
    AsLongOfIntsConcat(AsInt(b1, b2, b3, b4), AsInt(b5, b6, b7, b8));
    AsLongConcat(b1, b2, b3, b4, b5, b6, b7, b8);
  }

  // ---------------------------------------------------------------------
  // Round trips between a composed integer and its bytes

  lemma AsShortBytes(b1: Byte, b2: Byte)
    ensures ShortBytes(AsShort(b1, b2)) == [b1, b2]
  {
    AsShortConcat(b1, b2);
  }

  lemma ShortBytesAsShort(x: Short)
    ensures AsShort(ShortBytes(x)[0], ShortBytes(x)[1]) == x
  {
    AsShortConcat(ShortBytes(x)[0], ShortBytes(x)[1]);
  }

  lemma AsIntBytes(b1: Byte, b2: Byte, b3: Byte, b4: Byte)
    ensures IntBytes(AsInt(b1, b2, b3, b4)) == [b1, b2, b3, b4]
  {
    AsIntConcat(b1, b2, b3, b4);
  }

  lemma IntBytesAsInt(x: Int)
    ensures var b := IntBytes(x); AsInt(b[0], b[1], b[2], b[3]) == x
  {
    var b := IntBytes(x);
    AsIntConcat(b[0], b[1], b[2], b[3]);
  }

  lemma AsLongBytes(b1: Byte, b2: Byte, b3: Byte, b4: Byte, b5: Byte, b6: Byte, b7: Byte, b8: Byte)
    ensures LongBytes(AsLong(b1, b2, b3, b4, b5, b6, b7, b8)) == [b1, b2, b3, b4, b5, b6, b7, b8]
  {
    AsLongConcat(b1, b2, b3, b4, b5, b6, b7, b8);
  }

  lemma LongBytesAsLong(x: Long)
    ensures var b := LongBytes(x); AsLong(b[0], b[1], b[2], b[3], b[4], b[5], b[6], b[7]) == x
  {
    var b := LongBytes(x);
    AsLongConcat(b[0], b[1], b[2], b[3], b[4], b[5], b[6], b[7]);
  }

  // ---------------------------------------------------------------------
  // Byte reversal reverses the inputs of the composition, and is an involution

  lemma ReverseAsShort(b1: Byte, b2: Byte)
    ensures ReverseShort(AsShort(b1, b2)) == AsShort(b2, b1)
  {
    AsShortConcat(b1, b2);
    AsShortConcat(b2, b1);
  }

  lemma ReverseAsInt(b1: Byte, b2: Byte, b3: Byte, b4: Byte)
    ensures ReverseInt(AsInt(b1, b2, b3, b4)) == AsInt(b4, b3, b2, b1)
  {
    AsIntConcat(b1, b2, b3, b4);
    AsIntConcat(b4, b3, b2, b1);
  }

  lemma ReverseAsLong(b1: Byte, b2: Byte, b3: Byte, b4: Byte, b5: Byte, b6: Byte, b7: Byte, b8: Byte)
    ensures ReverseLong(AsLong(b1, b2, b3, b4, b5, b6, b7, b8)) == AsLong(b8, b7, b6, b5, b4, b3, b2, b1)
  {
    AsLongConcat(b1, b2, b3, b4, b5, b6, b7, b8);
    AsLongConcat(b8, b7, b6, b5, b4, b3, b2, b1);
  }

  lemma ReverseShortInvolution(x: Short)
    ensures ReverseShort(ReverseShort(x)) == x
  {}

  lemma ReverseIntInvolution(x: Int)
    ensures ReverseInt(ReverseInt(x)) == x
  {}

  lemma ReverseLongInvolution(x: Long)
    ensures ReverseLong(ReverseLong(x)) == x
  {}

  // ---------------------------------------------------------------------
  // The unsigned conversions keep the bit pattern

  lemma UnsignedKeepsBits(s: Short, i: Int, l: Long)
    ensures ShortToUShort(s) as bv16 == s
    ensures IntToUInt(i) as bv32 == i
    ensures LongToULong(l) as bv64 == l
  {}
}
