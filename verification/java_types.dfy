/** Java's primitive `int`: a two's-complement 32-bit integer. */
module JavaTypes {

  const IntMin: int := -0x8000_0000
  const IntMax: int := 0x7fff_ffff

  /** The values a Java `int` can hold. */
  type Int32 = x: int | IntMin <= x <= IntMax
}
