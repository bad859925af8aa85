/** The result of a call into an external service: a value, or the message of
    the exception the call raised. */
module Results {

  datatype Result<+T> = Success(value: T) | Failure(error: string)
}
