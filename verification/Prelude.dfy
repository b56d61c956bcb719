/** Result types shared by every component model. */
module Prelude {

  datatype Option<+T> = None | Some(value: T)

  /** The source's `(value, error)` returns. `error` is the error code where the
      source has one, and a short label otherwise; message texts are not modelled. */
  datatype Result<+T> = Ok(value: T) | Err(error: string)

  type byte = n: nat | n < 256
}
