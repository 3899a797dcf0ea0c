/** Status codes and the failure-compatible wrappers the interpreter uses.
    A status is an `int`: 0 or a count on success, a negated errno value on failure. */
module Base {

  // Linux errno values returned (negated) by the interpreter
  const EBADF: int := 9
  const EINVAL: int := 22
  const ENFILE: int := 23
  const ENODATA: int := 61

  /** A possibly-absent value; `None` plays the part of a NULL pointer. */
  datatype Option<+T> = None | Some(value: T)

  /** A converted value, or the negated errno of the failure. */
  datatype Result<+T> = Ok(value: T) | Err(code: int) {

    predicate IsFailure() {
      Err?
    }

    function PropagateFailure<U>(): Result<U>
      requires Err?
    {
      Err(code)
    }

    function Extract(): T
      requires Ok?
    {
      value
    }
  }

  /** A slice of the second part of a concatenation is a slice of that part. */
  lemma SliceShift<T>(a: seq<T>, b: seq<T>, i: nat, j: nat)
    requires i <= j <= |b|
    ensures (a + b)[|a| + i..|a| + j] == b[i..j]
  {
  }
}
