/** Go error values produced by the handler package, and the HTTPError record
    of pkg/handler/errors.go. */
module Errors {
  import opened Wrappers

  /** HTTPError carries a status code with its message. */
  datatype HTTPError = HTTPError(code: int, message: string) {
    /** (*HTTPError).Error: the message alone. */
    function Error(): string { message }
  }

  /** The two sentinel causes a *strconv.NumError can carry. */
  datatype NumCause = ErrSyntax | ErrRange

  /** A Go `error` value as the core builds them:
      - Plain: errors.New / fmt.Errorf without %w;
      - NumError: a *strconv.NumError (function name, input, cause);
      - Wrapped: fmt.Errorf("<prefix>: %w", cause);
      - Http: a *HTTPError. */
  datatype Error =
    | Plain(text: string)
    | NumError(func: string, num: string, cause: NumCause)
    | Wrapped(prefix: string, inner: Error)
    | Http(http: HTTPError)

  /** Go's %q for the strings the core quotes (escaping left out). */
  function Quote(s: string): string { "\"" + s + "\"" }

  function CauseText(c: NumCause): string {
    match c
    case ErrSyntax => "invalid syntax"
    case ErrRange => "value out of range"
  }

  /** The text of err.Error(). */
  function Text(e: Error): string {
    match e
    case Plain(t) => t
    case NumError(f, n, c) => "strconv." + f + ": parsing " + Quote(n) + ": " + CauseText(c)
    case Wrapped(p, inner) => p + ": " + Text(inner)
    case Http(h) => h.Error()
  }

  /** errors.As(err, &httpErr): the first *HTTPError on the unwrap chain. */
  function AsHTTPError(e: Error): Option<HTTPError> {
    match e
    case Http(h) => Some(h)
    case Wrapped(_, inner) => AsHTTPError(inner)
    case _ => None
  }

  /** Wraps `e` once per prefix, innermost prefix last. */
  function WrapAll(prefixes: seq<string>, e: Error): Error {
    if prefixes == [] then e else Wrapped(prefixes[0], WrapAll(prefixes[1..], e))
  }

  /** However deep an HTTPError is wrapped, errors.As finds it unchanged. */
  lemma {:induction false} AsHTTPErrorSeesThroughWrapping(prefixes: seq<string>, h: HTTPError)
    ensures AsHTTPError(WrapAll(prefixes, Http(h))) == Some(h)
  {
    if prefixes != [] {
      AsHTTPErrorSeesThroughWrapping(prefixes[1..], h);
    }
  }

  /** An error chain with no HTTPError in it is never taken for one. */
  lemma {:induction false} AsHTTPErrorNoneWithoutHttp(prefixes: seq<string>, e: Error)
    requires !e.Http? && !e.Wrapped?
    ensures AsHTTPError(WrapAll(prefixes, e)) == None
  {
    if prefixes != [] {
      AsHTTPErrorNoneWithoutHttp(prefixes[1..], e);
    }
  }

  /** Wrapping only ever prepends to the message text. */
  lemma {:induction false} WrappedTextKeepsCause(prefixes: seq<string>, e: Error)
    ensures |Text(WrapAll(prefixes, e))| >= |Text(e)|
    ensures Text(e) <= Text(WrapAll(prefixes, e))[|Text(WrapAll(prefixes, e))| - |Text(e)|..]
  {
    if prefixes != [] {
      WrappedTextKeepsCause(prefixes[1..], e);
      var inner := WrapAll(prefixes[1..], e);
      assert Text(WrapAll(prefixes, e)) == prefixes[0] + ": " + Text(inner);
    }
  }

  // --- HTTPError constructors (pkg/handler/errors.go) ---

  function NewHTTPError(code: int, msg: string): (e: HTTPError)
    ensures e.code == code && e.Error() == msg
  {
    HTTPError(code, msg)
  }

  function BadRequest(msg: string): (e: HTTPError) ensures e.code == 400 && e.Error() == msg { HTTPError(400, msg) }
  function Unauthorized(msg: string): (e: HTTPError) ensures e.code == 401 && e.Error() == msg { HTTPError(401, msg) }
  function Forbidden(msg: string): (e: HTTPError) ensures e.code == 403 && e.Error() == msg { HTTPError(403, msg) }
  function NotFound(msg: string): (e: HTTPError) ensures e.code == 404 && e.Error() == msg { HTTPError(404, msg) }
  function Conflict(msg: string): (e: HTTPError) ensures e.code == 409 && e.Error() == msg { HTTPError(409, msg) }
  function UnprocessableEntity(msg: string): (e: HTTPError) ensures e.code == 422 && e.Error() == msg { HTTPError(422, msg) }
  function InternalServerError(msg: string): (e: HTTPError) ensures e.code == 500 && e.Error() == msg { HTTPError(500, msg) }

  /** Errorf with the formatting already applied: `formatted` is fmt.Sprintf(format, args...). */
  function Errorf(code: int, formatted: string): (e: HTTPError)
    ensures e.code == code && e.Error() == formatted
  {
    HTTPError(code, formatted)
  }
}
