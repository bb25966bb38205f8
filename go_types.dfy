/** Value types of the Go runtime that both data structures use. */
module GoTypes {

  /** A Go `byte`. */
  newtype byte = b: int | 0 <= b < 256

  /** A Go `uint32`, the result type of a `consistenthash.Hash`. */
  newtype uint32 = x: int | 0 <= x < 0x1_0000_0000

  /** A Go `string` is an immutable sequence of bytes; `len(s)` counts bytes. */
  type GoString = seq<byte>

  /** The conventional optional value; `None` stands for Go's nil / "not found". */
  datatype Option<T> = None | Some(value: T)
}
