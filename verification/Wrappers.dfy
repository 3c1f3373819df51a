/** Results that stand for the program's return values and thrown exceptions. */
module Wrappers {

  /** One constructor for each exception that the modelled code throws. */
  datatype Error =
    // BitUtils: std::exception
    | BitCountNotMultipleOf8
    | NegativeInteger
    // timed_commitment: SanityException and ProtocolException
    | UIsNotGPowerA
    | InvalidW
    | WrongNumberOfCommits
    | WrongNumberOfValues
    | RegularCommitmentMismatch
    | GIsNotGetG
    | WrongWSize
    | WrongZWSize
    | WrongYSize
    | ZVerificationFailed
    | WVerificationFailed
    | DecodeUMismatch
    | OpenUMismatch
    // Paillier: PaillierException
    | PlaintextOutOfRange
    | ClientCannotDecrypt
    | CiphertextOutOfRange
    | CiphertextNotInvertible
    // shared_signature: ProtocolException
    | WrongDigestLength
    | DataIsEmpty
    | PaillierTooShort
    | MismatchingQ
    | RIsZero
    | SIsZero
    | InvalidSignature
    // SquareRoot: std::exception
    | InvalidSign
    // sell_information and signature_key: ProtocolException
    | InvalidIndicesSize
    | InvalidIndexValue
    | RootTooLarge
    | NotASquareRoot
    | RootsDoNotMatch
    | VerifyRootFailed
    | FactorizationFailed
    | InvalidKey
    | KeyGenerationFailed
    // no exception: the value of a function outside the values that the parties sample
    | NeverSampled

  datatype Result<+T> = Ok(value: T) | Err(error: Error) {
    predicate IsFailure() {
      Err?
    }

    function PropagateFailure<U>(): Result<U>
      requires Err?
    {
      Err(error)
    }

    function Extract(): T
      requires Ok?
    {
      value
    }

    /** Both return, or both throw the same exception. */
    predicate SameOutcome<U>(other: Result<U>) {
      Ok? == other.Ok? && (Err? ==> error == other.error)
    }
  }
}
