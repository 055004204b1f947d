/** The request as the middlewares see it, their outcome, and the library
    behaviour they call into. Header parsing is done by the framework: the
    model receives the already-parsed values. */
module Http {
  import opened Wrappers
  import opened Fields
  import opened Rules
  import opened Exceptions

  datatype Method = GET | HEAD | POST | PUT | PATCH | DELETE | OPTIONS | Other(name: string)

  /** A request method as the framework reports it: `isPut()` and its kin
      compare the method string, so a method spelled like a named one is that
      one, never `Other`. */
  type Verb = m: Method | m.Other? ==> m.name !in {"GET", "HEAD", "POST", "PUT", "PATCH", "DELETE", "OPTIONS"} witness GET

  /** The methods whose requests carry a `data` payload. */
  predicate CarriesData(m: Verb) {
    m == PUT || m == POST || m == PATCH
  }

  datatype Request = Request(
    verb: Verb,
    accept: Option<string>,               // getHeaderLine('Accept') when hasHeader('Accept')
    mediaType: Option<string>,            // getMediaType(); None for null
    charset: Option<string>,              // getContentCharset(); None for null
    mediaTypeParams: map<string, string>, // getMediaTypeParams()
    authorization: Option<string>,        // getHeaderLine('Authorization') when hasHeader('Authorization')
    params: map<string, string>,          // scalar request parameters
    data: Option<Fields>)                 // getParam('data')

  /** `$request->getParam($name)`: None for null. */
  function Param(req: Request, name: string): (r: Option<string>)
    ensures r.Some? <==> name in req.params
    ensures r.Some? ==> r.value == req.params[name]
  {
    if name in req.params then Some(req.params[name]) else None
  }

  /** What a middleware does with a request: hand it to the next handler, answer
      with an `X-Status-Reason` header and a status, or let an exception escape.
      What the next handler itself returns or throws is outside the model. */
  datatype Outcome = Next | Reject(reason: string, status: int) | Uncaught(error: Exc)

  /** `$response->withAddedHeader('X-Status-Reason', $e->getMessage())->withStatus($status)`. */
  function Respond(e: Exc, status: int): (r: Outcome)
    ensures r.Reject? && r.reason == e.message && r.status == status
  {
    Reject(e.message, status)
  }

  /** The library calls the middlewares make, as total functions:
      `filter_var($s, FILTER_SANITIZE_STRING)`, what each validation constraint
      accepts, and the exception classes not modelled here. */
  datatype Library = Library(
    sanitize: string -> string,
    holds: (Constraint, string) -> bool,
    classes: Classes)
}
