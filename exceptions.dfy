/** Python exceptions that cross the dictionary-parsing layer, written as values.
    A Python call either returns a value or raises; `Raised<T>` holds whichever happened. */
module Exceptions {

  datatype Option<T> = None | Some(value: T)

  /** The exception kinds the parsing layer tells apart. */
  datatype Exception =
    // SPDXParsingError(messages): the user-facing parsing failure
    | SpdxParsingError(messages: seq<string>)
    // TypeError or ValueError; `firstArgument` is `err.args[0]` as the list `logger.extend` iterates
    | TypeOrValueError(firstArgument: seq<string>)
    // ConstructorTypeErrors(messages), raised by a domain constructor
    | ConstructorTypeErrors(messages: seq<string>)
    // any other exception: never caught in this layer
    | OtherException(description: string)

  /** The outcome of one Python call. */
  datatype Raised<T> = Returned(value: T) | Raise(error: Exception)

  /** The kinds caught by `except SPDXParsingError` and `except (TypeError, ValueError)`. */
  predicate Recoverable(e: Exception) {
    e.SpdxParsingError? || e.TypeOrValueError?
  }

  /** What `logger.extend` receives for a caught exception: `err.get_messages()` or `err.args[0]`. */
  function CaughtMessages(e: Exception): seq<string>
    requires Recoverable(e)
  {
    if e.SpdxParsingError? then e.messages else e.firstArgument
  }

  /** A call outcome that a parsing helper catches and logs instead of propagating. */
  predicate Failed<T>(o: Raised<T>) {
    o.Raise? && Recoverable(o.error)
  }

  /** A call outcome that no helper of this layer catches. */
  predicate Escapes<T>(o: Raised<T>) {
    o.Raise? && !Recoverable(o.error)
  }
}
