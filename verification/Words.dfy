/** C's integer ranges. */
module Words {

  type byte = x: int | 0 <= x < 0x100

  const INT32_MAX := 0x7fff_ffff
  const UINT32_MAX := 0xffff_ffff
}
