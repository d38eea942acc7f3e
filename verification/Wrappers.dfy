/** Outcomes shared by every component: a value, or the error the JavaScript code throws. */
module Wrappers {

  datatype Option<+T> = None | Some(value: T)

  /** One constructor per `throw` that the modelled code can reach. */
  datatype Error =
    | InverseOfZero
    | NotOnCurve
    | DoesNotFit
    | BadLength
    | NonCanonical
    | NotInSubgroup
    | IdentityNotAllowed
    | NegativeScalar
    | ScalarOutOfRange
    | DecryptionFailed
    | PrematureEof
    | InvalidVarint
    | IllegalTag
    | IndexOutOfRange
    | InvalidWireType
    | InvalidRequest
    | InvalidResponse
    | UnknownCommitment
    | InvalidFixture

  datatype Result<+T> = Ok(value: T) | Err(error: Error)
}
