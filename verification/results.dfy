/** Outcome of reading a part back from the container. */
module Results {

  /** Why a part cannot be rebuilt from the container. */
  datatype ReadError =
    | RankOutOfRange      // the calling rank has no slab in the container
    | StatsTooShort       // the stats slab holds fewer than fifteen counters
    | CountExceedsTable   // a stored count is larger than the table's width
    | DanglingPointRef    // a stored point reference is not a local id of the part

  datatype Result<T> = Ok(value: T) | Err(error: ReadError)
  {
    predicate IsFailure()
    {
      Err?
    }

    function PropagateFailure<U>(): Result<U>
      requires Err?
    {
      Err(error)
    }

    function Extract(): T
      requires Ok?
    {
      value
    }
  }
}
