/** Octets and optional values. */
module Octets {
  type Octet = x: int | 0 <= x < 256

  datatype Option<T> = None | Some(value: T)
}
