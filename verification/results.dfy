/** Failure-compatible result types shared by every module of the model. */
module Results {

  datatype Option<+T> = None | Some(value: T)

  /** The exceptions the modelled Python code can raise, named by cause. */
  datatype Error =
    | DivisionByZero       // ZeroDivisionError from `/` or `//`
    | IndexOutOfRange      // IndexError from list indexing
    | MissingKey           // KeyError from a dict or a dataframe column
    | InvalidClusterCount  // KMeans refusing n_clusters outside [1, n_samples]

  datatype Result<+T> = Ok(value: T) | Err(error: Error) {

    predicate IsFailure() {
      Err?
    }

    function PropagateFailure<U>(): Result<U>
      requires Err?
    {
      Err(error)
    }

    function Extract(): T
      requires Ok?
    {
      value
    }
  }
}
