/** Rust's `Option` and `Result`, as the storage model returns them. `Result`
    supports Dafny's `:-` operator, which plays the part of Rust's `?`. */
module Results {

  /** An optional value, the model of Rust's `Option`. */
  datatype Option<+T> = None | Some(value: T) {

    /** `Option::unwrap_or`. */
    function UnwrapOr(default: T): T {
      match this
      case Some(v) => v
      case None => default
    }
  }

  /** A value or an error, the model of Rust's `Result`; usable with `:-`. */
  datatype Result<+R, +E> = Success(value: R) | Failure(error: E) {

    predicate IsFailure() {
      Failure?
    }

    function PropagateFailure<U>(): Result<U, E>
      requires Failure?
    {
      Failure(error)
    }

    function Extract(): R
      requires Success?
    {
      value
    }
  }
}

/** The error kinds of the storage layer that the model can produce. */
module Errors {

  datatype MutinyError =
    /** The old passphrase given to a rotation is not the configured one. */
    | IncorrectPassword
    /** A document could not be encoded or decoded as the requested type. */
    | SerdeError
    /** A ciphertext could not be decrypted with the given passphrase. */
    | DecryptionFailed
}
