/** Failure-carrying results shared by the models. */
module Wrappers {
  datatype Option<+T> = None | Some(value: T)

  datatype Result<+T, +E> = Ok(value: T) | Err(error: E)
}

/** Raw bytes. */
module Octets {
  type byte = b: int | 0 <= b < 256

  type Bytes = seq<byte>
}

/** Opaque names of sources and candidates. */
module Ids {
  type Id = string
}
