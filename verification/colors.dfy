/** RGBA colours with 8-bit channels, as Go's `color.RGBA`. */
module Colors {

  /** An 8-bit channel value (Go's `uint8`). */
  type uint8 = x: int | 0 <= x < 256

  /** One pixel value; two pixels are "the same colour" exactly when all four channels agree. */
  datatype RGBA = RGBA(r: uint8, g: uint8, b: uint8, a: uint8)

  /** The zero value of `color.RGBA`, returned when no colour is ever selected. */
  const Zero: RGBA := RGBA(0, 0, 0, 0)
}
