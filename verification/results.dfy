/** The kernel's Error/WithError pair: a value, or the cause of the failure. */
module Results {
  datatype Error =
    | NoEnoughMemory
    | AlreadyAllocated
    | IndexOutOfRange
    | NoSuchTask
    | NoSuchEntry
    | InvalidPhase
    | InvalidSlotID
    | UnknownXHCISpeedID
    | UnknownPixelFormat

  datatype Option<+T> = None | Some(value: T)

  datatype Result<+T> = Ok(value: T) | Err(error: Error)
}
