/** Go's 64-bit signed integer, shared by the decoder and the packer. */
module GoInt {

  const MinInt64: int := -0x8000_0000_0000_0000
  const MaxInt64: int := 0x7FFF_FFFF_FFFF_FFFF

  /** A Go `int64`; Go's `int` is 64 bits wide on the targets the source is built for. */
  type int64 = x: int | MinInt64 <= x <= MaxInt64
}
