/** Values shared by every part of the model: JavaScript's `undefined` as an
    Option, and the pipeline's single completion channel as a Result. */
module Base {

  /** `None` stands for JavaScript's `undefined`. */
  datatype Option<+T> = None | Some(value: T)

  /** The errors that reach the pipeline's `done(err)` callback. */
  datatype Error =
    | TransportError(detail: string)  // a fetch, `res.text()` or `res.json()` rejected
    | MissingYear                     // `yearMatches[1]` read on a null match (TypeError)
    | InvalidTimeValue                // `toISOString()` on an Invalid Date (RangeError)

  datatype Result<+T> = Success(value: T) | Failure(error: Error)
}
