/** Outcomes of the modelled operations: a value, or one of the two
    exceptions the modelled code raises. */
module Outcome {

  /** The exceptions the modelled code raises.
      - UnknownBase(c): a dictionary lookup on a character outside A/C/G/T
        (Python's KeyError), carrying the character that was looked up.
      - WrongLength(n): a guide of length n != 20 given to a scorer
        (Python's ValueError). */
  datatype Error = UnknownBase(c: char) | WrongLength(n: nat)

  datatype Result<T> = Ok(value: T) | Err(error: Error)
}
