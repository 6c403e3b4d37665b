/** Values that cross the public boundary of the converters: the dynamically
    typed JavaScript argument and the outcome of a call. */
module Values {

  /** A JavaScript argument as far as the converters look at it: either a
      string or something for which `typeof` is not 'string'. */
  datatype JsValue = Str(s: string) | NonString

  /** The distinct failures the converters signal by throwing. */
  datatype Error =
    | WrongType     // the argument is not a string
    | NoValidWords  // splitting produced no non-empty word
    | EmptyInput    // the argument is empty or blank after trimming

  /** Either the converted string or the error that was thrown. */
  datatype Result<T> = Ok(value: T) | Err(error: Error)
}
