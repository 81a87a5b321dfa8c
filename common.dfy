/** Values shared by every module of the model. */
module Common {

  /** A value that may be absent: a NULL pointer, an unset directive, a failed lookup. */
  datatype Option<+T> = None | Some(value: T)

  /** The C `uint32_t` / `in_addr_t` range. */
  type uint32 = x: int | 0 <= x < 0x1_0000_0000
}
