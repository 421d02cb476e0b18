/** The errors the conversion core raises: the `ValidationError` the helpers throw, and
    the errors that leave a transformer or the service. */
module Errors {
  import opened Wrappers
  import Strings

  /** The `errors` argument of the `ValidationError` constructor: one message or a list. */
  datatype ErrorsArg = OneError(message: string) | ErrorList(messages: seq<string>)

  /** A constructed `ValidationError`: its `errors` array, `message` and `name`. */
  datatype ValidationError = ValidationError(errors: seq<string>, message: string, name: string)

  /** `new ValidationError(errors, prefix)`: a single message becomes a one-element list,
      and the message is the list joined with ", ", after "prefix: " when the prefix is a
      non-empty string. */
  function NewValidationError(errors: ErrorsArg, prefix: Option<string>): (e: ValidationError)
    ensures e.name == "ValidationError"
    ensures errors.OneError? ==> e.errors == [errors.message]
    ensures errors.ErrorList? ==> e.errors == errors.messages
    ensures prefix.Some? && prefix.value != [] ==>
      e.message == prefix.value + ": " + Strings.Join(e.errors, ", ")
    ensures !(prefix.Some? && prefix.value != []) ==> e.message == Strings.Join(e.errors, ", ")
  {
    var list := match errors
      case OneError(m) => [m]
      case ErrorList(ms) => ms;
    var joined := Strings.Join(list, ", ");
    var message := if prefix.Some? && prefix.value != [] then prefix.value + ": " + joined else joined;
    ValidationError(list, message, "ValidationError")
  }

  /** A one-message error without a prefix carries exactly that message. */
  lemma SingleMessage(m: string)
    ensures NewValidationError(OneError(m), None).message == m
  {
  }

  /** What a transformer's body can throw before its `catch`: a `ValidationError` from
      the helpers, or anything else (here, the `TypeError` of calling a missing method). */
  datatype Thrown = Validation(error: ValidationError) | TypeFailure

  /** What leaves a transformer or the service: a `DocumentTransformerError` with its
      message, or the service's `DocumentError` for an unsupported content type. */
  datatype DocumentError =
    | TransformerError(message: string)
    | UnsupportedContentType(contentType: string)
  {
    function Message(): string {
      match this
      case TransformerError(m) => m
      case UnsupportedContentType(ct) => "Unsupported content type: " + ct
    }
  }

  /** The `catch` shared by every transformer method: a `ValidationError` keeps its
      message, anything else becomes "Unexpected error". */
  function Rewrap(t: Thrown): (e: DocumentError)
    ensures e.TransformerError?
    ensures t.Validation? ==> e.message == t.error.message
    ensures t.TypeFailure? ==> e.message == "Unexpected error"
  {
    match t
    case Validation(v) => TransformerError(v.message)
    case TypeFailure => TransformerError("Unexpected error")
  }

  /** A thrown `ValidationError`, already passed through the transformer's `catch`. */
  function Fail<T>(errors: ErrorsArg, prefix: Option<string>): (r: Result<T, DocumentError>)
    ensures r.Failure? && r.error == TransformerError(NewValidationError(errors, prefix).message)
  {
    Failure(Rewrap(Validation(NewValidationError(errors, prefix))))
  }
}
