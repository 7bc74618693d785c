/** Fixed-width integers of the firmware, written out explicitly because
    Dafny's integers are unbounded. */
module Bytes {

  /** C's `uint8_t`. */
  type uint8 = x: int | 0 <= x < 256

  /** C's `int8_t`. */
  type int8 = x: int | -128 <= x < 128

  /** The value C stores when an `int8_t` is assigned to a `uint8_t`
      (two's complement: -10 becomes 246). */
  function ToUnsigned(x: int8): (b: uint8)
    ensures b % 256 == x % 256
    ensures x >= 0 ==> b == x
    ensures x < 0 ==> b >= 128
  {
    if x < 0 then x + 256 else x
  }

  /** Reads a stored byte back as a two's-complement `int8_t`. */
  function ToSigned(b: uint8): (x: int8)
    ensures x % 256 == b
    ensures ToUnsigned(x) == b
  {
    if b < 128 then b else b - 256
  }

  /** Storing a signed value into a byte loses nothing. */
  lemma SignedRoundTrip(x: int8)
    ensures ToSigned(ToUnsigned(x)) == x
  {
  }

  /** `x + 1` on a `uint8_t`, which wraps from 255 to 0. */
  function Inc8(x: uint8): (r: uint8)
    ensures x < 255 ==> r == x + 1
    ensures x == 255 ==> r == 0
  {
    (x + 1) % 256
  }

  /** `x - 1` on a `uint8_t`, which wraps from 0 to 255. */
  function Dec8(x: uint8): (r: uint8)
    ensures x > 0 ==> r == x - 1
    ensures x == 0 ==> r == 255
    ensures Inc8(r) == x
  {
    (x + 255) % 256
  }
}
