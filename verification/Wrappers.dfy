/** An optional value, and the address of a server. */
module Wrappers {
  datatype Option<+T> = None | Some(value: T)

  /** A node's host and port; nodes are equal when these are. */
  datatype Address = Address(host: string, port: nat)
}
