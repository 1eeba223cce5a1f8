/** Vocabulary shared by the models: an optional value and the C integer widths. */
module Common {

  datatype Option<+T> = None | Some(value: T)

  const TWO_8 := 0x100
  const TWO_16 := 0x1_0000
  const TWO_32 := 0x1_0000_0000

  /** What an `unsigned int` holds after an assignment of `x`. */
  function U32(x: int): nat { x % TWO_32 }

  /** What a `u16` holds after an assignment of `x`. */
  function U16(x: int): nat { x % TWO_16 }

  /** What a `u8` holds after an assignment of `x`. */
  function U8(x: int): nat { x % TWO_8 }
}
