/** Option and Result values standing in for null references and thrown
    exceptions, and the integer helpers the other modules share. */
module Outcomes {

  /** The largest Int32 value. */
  const Int32Max: int := 0x7fff_ffff

  function Max(a: int, b: int): int {
    if a < b then b else a
  }

  datatype Option<+T> = None | Some(value: T)

  /** The two ways the thread-static lookup throws OutOfMemoryException. */
  datatype OutOfMemory =
    | RegistrationFailed  // the runtime refused to install a grown table
    | AllocationFailed    // the runtime could not allocate a storage block

  datatype Result<+T> = Ok(value: T) | Err(error: OutOfMemory)
}
