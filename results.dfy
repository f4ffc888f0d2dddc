/** Option and Result for the program's failure paths. Every `expect`, `unwrap`
    and out-of-range slice of the program aborts the process; the model makes
    each such abort an `Err` carrying the reason, so that callers (and lemmas)
    can see exactly when it happens. */
module Results {

  datatype Option<+T> = None | Some(value: T)

  /** Why the program would abort. */
  datatype Error =
    | InvalidKeyIvLength   // `new_from_slices(..).expect("Invalid key/iv length")`
    | BlockModeError       // `decrypt_vec(..).unwrap()`: bad length or bad padding
    | SliceOutOfRange      // `salt[0..16]` on a salt shorter than 16 bytes
    | NeverTerminates      // the odd-counter loop of `concatenate_and_hash_multiple`

  datatype Result<+T> = Ok(value: T) | Err(error: Error) {
    predicate IsFailure() {
      Err?
    }

    function PropagateFailure<U>(): Result<U>
      requires Err?
    {
      Err(error)
    }

    function Extract(): T
      requires Ok?
    {
      value
    }
  }
}
