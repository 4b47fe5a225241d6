/** Error outcomes of the replay engine, named after the Python exceptions that
    the corresponding code paths raise. */
module Results {

  datatype PyError =
    | AssertionError   // a failed `assert` in the source
    | IndexError       // an index outside an array or tensor
    | ValueError       // a reduction (np.min / np.max) over an empty array
    | TypeError        // `len(None)`: the storage has not been created yet
    | AttributeError   // an attribute lookup on the missing storage
    | RuntimeError     // `torch.randint` with an empty range
    | RecursionError   // `_reduce_helper` called on an empty range never stops
    | ZeroDivisionError // `% size` with size 0

  datatype Result<T> = Ok(value: T) | Err(error: PyError)

  datatype Option<T> = None | Some(value: T)

  /** Result of an operation that returns nothing but may raise. */
  datatype Outcome = Pass | Fail(error: PyError)
}
