/** Types shared by all modules. */
module Basics {

  datatype Option<+T> = None | Some(value: T)

  type Byte = b: int | 0 <= b < 256
  type Slice = seq<Byte>
}
