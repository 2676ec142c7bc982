/** Error results that stand for the exceptions the codec throws. */
module Outcomes {

  /** Why an operation failed; one constructor per distinct exception of the source. */
  datatype Failure =
    | StartBitsOutOfRange        // "Start bit range not in range 0-7!"
    | EndBitsOutOfRange          // "End bit range not in range 0-7!"
    | RangeReversed              // "End bit range must be higher than start range!"
    | MessageTooBig(maxBytes: int) // capacity check of encode, reporting (maxBits - 32) / 8
    | RecoveredSizeWrong(size: int) // first plausibility check of decode
    | MessageBiggerThanSupposed  // second plausibility check of decode
    | NoShot                     // getNextShot's null: the counter has passed maxBits
    | StreamFinished             // IOException of Message.nextBit / Message.setNext
    | IllegalArgument            // IllegalArgumentException of StegoImage
    | Unsupported                // UnsupportedOperationException of StegoImage
    | RuntimeFault               // an unchecked Java runtime exception (null shot, index, division by zero, negative array size)

  datatype Result<+T> = Ok(value: T) | Err(error: Failure)

  datatype Outcome = Pass | Fail(error: Failure)
}
