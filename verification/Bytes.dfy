// The machine's byte, as a range of the mathematical integers.
module Bytes {
  type byte = x: int | 0 <= x < 256

  const NUL: byte := 0
  const BACKSPACE: byte := 8 // '\b'
  const TAB: byte := 9       // '\t'
  const NEWLINE: byte := 10  // '\n'
  const RETURN: byte := 13   // '\r'
  const SPACE: byte := 32    // ' '
}
