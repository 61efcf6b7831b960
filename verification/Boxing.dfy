/**
  NaN boxing: small integers, reals and object pointers in one 64-bit word, told apart by the bits that make a double
  a NaN.
 */
module Boxing {

  import opened Wrappers
  import opened Words

  const MAX_REAL: u64 := 0xFFF8_0000_0000_0000
  const INTEGER_TAG: u64 := 0xFFF9_0000_0000_0000
  const ADDRESS_TAG: u64 := 0xFFFA_0000_0000_0000
  const TWO_48: int := 0x1_0000_0000_0000

  type i32 = x: int | -0x8000_0000 <= x < 0x8000_0000
  type i64 = x: int | -0x8000_0000_0000_0000 <= x < 0x8000_0000_0000_0000

  /** What an address can be: 48 bits, of which the low three are clear. */
  type address = x: int | 0 <= x < TWO_48 && x % 8 == 0

  predicate IsSmallReal(w: u64) {
    w < MAX_REAL
  }

  predicate IsSmallInt(w: u64) {
    w - w % TWO_32 == INTEGER_TAG
  }

  predicate IsPointer(w: u64) {
    w - w % TWO_48 == ADDRESS_TAG
  }

  function AsInteger(w: u64): i32 {
    var low := w % TWO_32;
    if low < 0x8000_0000 then low else low - TWO_32
  }

  function AsPointer(w: u64): nat {
    w % TWO_48
  }

  /** The operands of the bitwise or have no bit in common, here and in `TagPointer`. */
  function TagInteger(i: i32): u64 {
    INTEGER_TAG + if i < 0 then i + TWO_32 else i
  }

  /** The bits of a double are its word. */
  function TagReal(bits: u64): u64 {
    bits
  }

  function TagPointer(p: address): u64 {
    ADDRESS_TAG + p
  }

  // ---------------------------------------------------------------------------------------------
  // Doubles
  // ---------------------------------------------------------------------------------------------

  function Exponent(bits: u64): nat {
    bits / 0x10_0000_0000_0000 % 2048
  }

  function Mantissa(bits: u64): nat {
    bits % 0x10_0000_0000_0000
  }

  predicate IsNegative(bits: u64) {
    bits >= 0x8000_0000_0000_0000
  }

  predicate IsNaN(bits: u64) {
    Exponent(bits) == 2047 && Mantissa(bits) != 0
  }

  /** The top bit of the mantissa makes a NaN quiet. */
  predicate IsQuietNaN(bits: u64) {
    Exponent(bits) == 2047 && Mantissa(bits) >= 0x8_0000_0000_0000
  }

  // ---------------------------------------------------------------------------------------------
  // The classes
  // ---------------------------------------------------------------------------------------------

  lemma IntegersAreKept(i: i32, w: u64)
    ensures IsSmallInt(TagInteger(i)) && AsInteger(TagInteger(i)) == i
    ensures IsSmallInt(w) ==> TagInteger(AsInteger(w)) == w
  {
    var low := if i < 0 then i + TWO_32 else i;
    assert TagInteger(i) % TWO_32 == low;
  }

  lemma PointersAreKept(p: address, w: u64)
    ensures IsPointer(TagPointer(p)) && AsPointer(TagPointer(p)) == p
    ensures IsPointer(w) && AsPointer(w) % 8 == 0 ==> TagPointer(AsPointer(w)) == w
  {
    assert TagPointer(p) % TWO_48 == p;
  }

  /** The word of an integer: 0xFFF9 and then zeros on top, and below them the integer modulo 2^32. */
  lemma IntegerLayout(i: i32)
    ensures TagInteger(i) / TWO_32 == 0xFFF9_0000
    ensures 0 <= i ==> TagInteger(i) % TWO_32 == i
    ensures i < 0 ==> TagInteger(i) % TWO_32 == TWO_32 + i
  {}

  /** The word of a pointer: 0xFFFA on top, and the address below. */
  lemma PointerLayout(p: address)
    ensures TagPointer(p) / TWO_48 == 0xFFFA && TagPointer(p) % TWO_48 == p
  {}

  /** No word is in two classes. The words in none are three gaps above the reals. */
  lemma ClassesAreDisjoint(w: u64)
    ensures !(IsSmallReal(w) && IsSmallInt(w)) && !(IsSmallReal(w) && IsPointer(w)) && !(IsSmallInt(w) && IsPointer(w))
    ensures !IsSmallReal(w) && !IsSmallInt(w) && !IsPointer(w)
            <==> MAX_REAL <= w < INTEGER_TAG
                 || INTEGER_TAG + TWO_32 <= w < ADDRESS_TAG
                 || ADDRESS_TAG + TWO_48 <= w
  {
    IntegerRange(w);
    PointerRange(w);
  }

  lemma IntegerRange(w: u64)
    ensures IsSmallInt(w) <==> INTEGER_TAG <= w < INTEGER_TAG + TWO_32
  {}

  lemma PointerRange(w: u64)
    ensures IsPointer(w) <==> ADDRESS_TAG <= w < ADDRESS_TAG + TWO_48
  {}

  /** A double is stored as a real exactly when it is not a negative quiet NaN. */
  lemma RealsAreKeptIff(bits: u64)
    ensures IsSmallReal(TagReal(bits)) <==> !(IsNegative(bits) && IsQuietNaN(bits))
    ensures IsSmallReal(TagReal(bits)) || IsNaN(bits)
  {}

  /** The NaNs that are not stored as reals include all integers and all pointers. */
  lemma TaggedWordsAreNegativeQuietNaNs(w: u64)
    requires IsSmallInt(w) || IsPointer(w)
    ensures IsNegative(w) && IsQuietNaN(w)
  {
    IntegerRange(w);
    PointerRange(w);
  }
}
