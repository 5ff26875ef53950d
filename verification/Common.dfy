/** Shared result types: the error values of the domain layer and the usual wrappers. */
module Common {
  datatype Option<+T> = None | Some(value: T)

  /** The domain errors the modelled code returns; `Internal` is any database or cache error
      that is passed on without being mapped to a domain error. */
  datatype Error = NotFound | Conflict | Forbidden | Internal

  datatype Result<+T> = Success(value: T) | Failure(error: Error)
}
