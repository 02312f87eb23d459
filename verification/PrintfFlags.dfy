/** The flag word of the formatter and its constants. */
module PrintfFlags {
  /** One field per FLAGS_ bit. */
  datatype Flags = Flags(
    zeropad: bool, left: bool, plus: bool, space: bool, hash: bool, upper: bool,
    isChar: bool, isShort: bool, isLong: bool, isLongLong: bool,
    precision: bool, adaptExp: bool, pointer: bool)

  const NO_FLAGS := Flags(false, false, false, false, false, false, false, false, false, false, false, false, false)

  const BUFFER_SIZE := 32
  const BASE_BINARY := 2
  const BASE_OCTAL := 8
  const BASE_DECIMAL := 10
  const BASE_HEX := 16
}
