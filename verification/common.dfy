/** Small shared vocabulary: optional values, results, and the outcome of a
    call into an external collaborator (registry, file system, channel, ...).
    The modelled program handles every such call's failure explicitly, so
    those calls become `Outcome` parameters of the operations that make them. */
module Common {

  datatype Option<+T> = None | Some(value: T)

  datatype Result<+T, +E> = Ok(value: T) | Err(error: E)

  /** What an external call reported: success, or failure with its message. */
  datatype Outcome = Done | Failed(reason: string)

  /** A byte as the Python encoders and `struct.pack` produce it. */
  newtype byte = x: int | 0 <= x < 256

  function Min(a: int, b: int): int
  {
    if a <= b then a else b
  }

  function MaxReal(a: real, b: real): real
  {
    if a >= b then a else b
  }
}
