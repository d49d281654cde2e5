/** Failure-compatible results for the operations of the inference script, whose
    failures are Python exceptions that abort the run. */
module Results {

  /** The exceptions the modelled code can raise. */
  datatype Error =
    | IndexError          // `size[0]` on an empty IMAGE_SIZE list
    | ZeroDivisionError   // an image with an empty side: `size[0] / min(H, W)`
    | EmptyResize         // resizing to a target side that is not positive
    | ChannelMismatch     // a three-channel Normalize applied to an image of another depth
    | EmptyArgmax         // argmax over a class dimension of size zero

  datatype Option<+T> = None | Some(value: T)

  datatype Result<+T> = Success(value: T) | Failure(error: Error) {
    predicate IsFailure() { Failure? }

    function PropagateFailure<U>(): Result<U>
      requires Failure?
    {
      Failure(error)
    }

    function Extract(): T
      requires Success?
    {
      value
    }
  }
}
