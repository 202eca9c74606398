/** Failure-carrying values shared by the model: the errors the views can end in. */
module Results {

  datatype Option<+T> = None | Some(value: T)

  /** Why a request ends without its normal response. */
  datatype Error =
    | MalformedToken            // a selector that does not decode to 16 bytes (ValueError)
    | NotFound                  // no book carries the decoded selector (Http404 / DoesNotExist)
    | MissingParameter(name: string)  // a POST field the view indexes is absent (KeyError)
    | NegativeIndexing          // a queryset slice with a negative bound

  datatype Result<+T> = Ok(value: T) | Err(error: Error)

  /** A result that carries no value: the view answered normally or failed. */
  datatype Outcome = Pass | Fail(error: Error)
}
