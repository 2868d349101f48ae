/** Fixed-width integers as the Go compiler treats them, and the usual option and
    result types.  A conversion to a fixed width is written out where it happens. */
module Machine {

  type byte = x: int | 0 <= x < 0x100
  type uint16 = x: int | 0 <= x < 0x1_0000
  type uint32 = x: int | 0 <= x < 0x1_0000_0000
  type uint64 = x: int | 0 <= x < 0x1_0000_0000_0000_0000

  datatype Option<+T> = None | Some(value: T)

  /** What a Go call can do: return, return an error, or panic. */
  datatype Outcome<+T> = Returns(value: T) | Fails | Panics

  const TWO_TO_32: int := 0x1_0000_0000
  const TWO_TO_64: int := 0x1_0000_0000_0000_0000

  /** Subtraction of uint16 values wraps around. */
  function Sub16(a: uint16, b: uint16): uint16 {
    (a - b) % 0x1_0000
  }

  /** Conversion to uint32 keeps the low 32 bits. */
  function ToUint32(x: int): uint32 {
    x % 0x1_0000_0000
  }

  /** Conversion to uint64 keeps the low 64 bits. */
  function ToUint64(x: int): uint64 {
    x % 0x1_0000_0000_0000_0000
  }

  /** Conversion to int64 keeps the low 64 bits and reads them in two's complement. */
  function ToInt64(x: int): int {
    (x + 0x8000_0000_0000_0000) % 0x1_0000_0000_0000_0000 - 0x8000_0000_0000_0000
  }

  /** Every conversion keeps a number up to multiples of the width, and ends in its range. */
  lemma ConversionsWrap(x: int)
    ensures x == ToUint32(x) + 0x1_0000_0000 * (x / 0x1_0000_0000)
    ensures x == ToUint64(x) + 0x1_0000_0000_0000_0000 * (x / 0x1_0000_0000_0000_0000)
    ensures -0x8000_0000_0000_0000 <= ToInt64(x) < 0x8000_0000_0000_0000
    ensures x == ToInt64(x) + 0x1_0000_0000_0000_0000 * ((x + 0x8000_0000_0000_0000) / 0x1_0000_0000_0000_0000)
  {
  }

  lemma Sub16Wraps(a: uint16, b: uint16)
    ensures Sub16(a, b) == if a >= b then a - b else a - b + 65536
  {
  }
}
