/**
 What the circuit code inherits from its host language: `usize` values and
 panics. A panic during witness generation aborts constraint synthesis, so
 it is modelled as the failure case of `Result`.
 */
module Runtime {

  /** A 64-bit `usize`. */
  type Usize = x: int | 0 <= x < 0x1_0000_0000_0000_0000

  /** Why constraint synthesis aborts. */
  datatype Panic =
    | IndexOutOfBounds         // a `Vec` indexed past its length
    | BadBaseNumber            // `usize_to_felt` given a base above 3
    | IncorrectCigarCharacter  // the plain CIGAR bookkeeping met a symbol above 2

  datatype Result<T> = Ok(value: T) | Panicked(reason: Panic)
  {
    predicate IsFailure() { Panicked? }

    function PropagateFailure<U>(): Result<U>
      requires Panicked?
    {
      Panicked(reason)
    }

    function Extract(): T
      requires Ok?
    {
      value
    }
  }
}
