/** Option and Result datatypes shared by the other modules. */
module Wrappers {
  datatype Option<T> = None | Some(value: T)

  datatype Result<T, E> = Ok(value: T) | Err(error: E)
}

/** The pixel alphabet: a flattened image is a sequence of 8-bit intensities. */
module Pixels {
  /** One unsigned 8-bit value (a numpy uint8 element). */
  type Byte = x: int | 0 <= x < 256
}

/** Bit strings as the source writes them: Python strings of '0' and '1'. */
module Bits {
  /** One character of a bit string. */
  type Bit = c: char | c == '0' || c == '1' witness '0'

  type Code = seq<Bit>
}
