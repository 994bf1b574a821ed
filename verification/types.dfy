/** Value types shared by the kernel and user-program models: C's unsigned
    32-bit integer, and the optional / failing results that the C code
    expresses with null pointers, `panic` and `exit(-1)`. */
module Types {

  /** An unsigned 32-bit C integer (`uint`). */
  type u32 = x: int | 0 <= x < 0x1_0000_0000

  /** A value that may be absent (a C pointer that may be null). */
  datatype Option<+T> = None | Some(value: T)

  /** A value, or an error with the message the C code prints: for the
      kernel a `panic`, for a user program `exit(-1)` after a message. */
  datatype Result<+T> = Ok(value: T) | Err(msg: string)
}
