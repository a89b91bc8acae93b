/** Option and Result values shared by the modules of this model. A Python
    function that either returns or raises is modelled as a function that
    returns a Result. */
module Results {

  datatype Option<+T> = None | Some(value: T)

  datatype Result<+R, +E> = Success(value: R) | Failure(error: E)

  /** What a collaborator call did: returned normally, or raised `error`. */
  datatype Outcome<+E> = Ok | Raise(error: E)
}
