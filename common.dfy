/** Option/Result wrappers and the application error raised by the use cases. */
module Common {

  datatype Option<+T> = None | Some(value: T)

  /** `given ?? previous` for an optional field: `None` stands for `undefined`. */
  function OrElse<T>(given: Option<T>, previous: T): (r: T)
    ensures given.Some? ==> r == given.value
    ensures given.None? ==> r == previous
  {
    if given.Some? then given.value else previous
  }

  /** The HTTP-level error every use case and service throws (`AppError(status, message)`). */
  datatype AppError = AppError(status: int, message: string)

  /** A use case either returns a value or throws an `AppError`. */
  datatype Result<+T> = Ok(value: T) | Err(error: AppError)

  const TopicNotFound := AppError(404, "Topic not found")
  const TopicVersionNotFound := AppError(404, "Topic version not found")
  const PathNotFound := AppError(404, "Path not found")
  const ResourceNotFound := AppError(404, "Resource not found")
  const VersionMustBeANumber := AppError(400, "Version must be a number")
  const Unauthorized := AppError(401, "Unauthorized")
  const Forbidden := AppError(403, "Forbidden")
}
