/** The fixed-width integer types of C's <stdint.h> that the firmware uses. */
module CTypes {

  /** uint8_t */
  newtype uint8 = x: int | 0 <= x < 0x100

  /** int16_t */
  newtype int16 = x: int | -0x8000 <= x < 0x8000

  /** True iff the mathematical integer x is representable as an int16_t. */
  predicate InInt16Range(x: int) {
    -0x8000 <= x < 0x8000
  }
}
