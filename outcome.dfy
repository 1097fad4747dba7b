/** Failure-carrying results. Every KALDI_ERR or KALDI_ASSERT that the source uses to reject a
    malformed computation becomes a `Fail`/`Err` carrying the message the source prints. */
module Outcomes {

  /** The result of a check that produces no value. */
  datatype Outcome = Pass | Fail(message: string)

  /** The result of an operation that produces a value or aborts. */
  datatype Result<+T> = Ok(value: T) | Err(message: string) {
    /** Forgets the value. */
    function ToOutcome(): Outcome {
      match this
      case Ok(_) => Pass
      case Err(m) => Fail(m)
    }
  }
}
