/** Outcomes of the program's functions (include/return_codes.h). */
module ReturnCodes {
  datatype Option<+T> = None | Some(value: T)

  datatype ReturnCode =
    | Success
    | LinkedListEmpty
    | NoCompareFunction
    | CouldNotFindValidProofOfWork
    | OpensslFunction
    | CouldNotMalloc
    | SignatureTooLong
    | BufferTooSmall
    | InvalidBlockchain
    | StoppedEarly
    | LongerBlockchainDetected
    | NetworkFunction
    | InvalidCommandPrefix
    | InvalidCommand

  /** A value filled in on success, or the failure's return code. `OutOfBounds` is no return code of
      the program: it marks a read past the end of a buffer, after which C defines no behaviour. */
  datatype Result<+T> = Ok(value: T) | Err(code: ReturnCode) | OutOfBounds {
    predicate IsFailure() {
      !Ok?
    }

    function PropagateFailure<U>(): Result<U>
      requires IsFailure()
    {
      if Err? then Err(code) else OutOfBounds
    }

    function Extract(): T
      requires Ok?
    {
      value
    }
  }
}
