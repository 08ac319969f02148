/** Types shared by every module of the model. */
module Wrappers {
  datatype Option<+T> = None | Some(value: T)

  /** One octet. It is a subset of `char` so that wire bytes and protocol text share a type. */
  type Byte = c: char | c as int < 256 witness '\0'

  type Bytes = seq<Byte>
}
