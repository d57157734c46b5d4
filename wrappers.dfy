/** Small shared value types used across the model. */
module Wrappers {

  /** An optional value; stands for a nullable pointer of the original program. */
  datatype Option<+T> = None | Some(value: T)

  /** A source byte: `char` values of the buffer are read as 0..255. */
  type Byte = b: nat | b < 256
}
