/** Primitive types shared by the model of the strict type layer. */
module Base {

  /** Rust's `u8`: field and variant ordinals. */
  type u8 = x: int | 0 <= x < 0x100

  datatype Option<+T> = None | Some(value: T)

  datatype Result<+T, +E> = Success(value: T) | Failure(error: E)
}
