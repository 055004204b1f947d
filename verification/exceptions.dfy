/** The exceptions the middlewares throw and catch. An exception is its kind,
    its message and its integer code. `RequestParameterInvalidException` and
    PHP's `RuntimeException` are fully determined here; the message wrapping and
    code of the other exception classes (header, missing, unknown,
    authentication, and the validation library's own exception) are not part
    of this model and arrive as a `Classes` parameter. */
module Exceptions {
  import opened Wrappers
  import opened Rules

  datatype Kind =
    | HttpHeader          // HttpHeaderException
    | ParameterMissing    // RequestParameterMissingException
    | ParameterUnknown    // RequestParameterUnknownException
    | ParameterInvalid    // RequestParameterInvalidException
    | Authentication      // AuthenticationException
    | Validation          // the validation library's ValidationException
    | Runtime             // \RuntimeException

  datatype Exc = Exc(kind: Kind, message: string, code: int)

  /** Code and message of each exception class whose source is not modelled,
      as a function of the constructor argument. The validation library's
      exception takes its message from the validator's name, the link that
      refused the input, and the input. */
  datatype Classes = Classes(
    code: Kind -> int,
    message: (Kind, string) -> string,
    refusal: (string, Constraint, string) -> string)

  /** HTTP 400 Bad Request. */
  const BadRequest: int := 400
  /** HTTP 401 Unauthorized. */
  const Unauthorized: int := 401

  const InvalidPrefix: string := "request parameter '"
  const InvalidSuffix: string := "' invalid"

  /** Reads the parameter name back out of an invalid-parameter message. */
  function ParseInvalidMessage(m: string): Option<string> {
    if |m| >= |InvalidPrefix| + |InvalidSuffix| && m[..|InvalidPrefix|] == InvalidPrefix
       && m[|m| - |InvalidSuffix|..] == InvalidSuffix
    then Some(m[|InvalidPrefix|..|m| - |InvalidSuffix|])
    else None
  }

  /** `new RequestParameterInvalidException($name, $code)`: the message wraps the
      name, and the code is 400 whatever `code` is passed. */
  function NewInvalidParameter(name: string, code: int): (e: Exc)
    ensures e.kind == ParameterInvalid
    ensures e.code == BadRequest
    ensures ParseInvalidMessage(e.message) == Some(name)
    ensures |e.message| == |name| + 28
  {
    var m := InvalidPrefix + name + InvalidSuffix;
    assert m[..|InvalidPrefix|] == InvalidPrefix;
    assert m[|m| - |InvalidSuffix|..] == InvalidSuffix;
    assert m[|InvalidPrefix|..|m| - |InvalidSuffix|] == name;
    Exc(ParameterInvalid, m, BadRequest)
  }

  /** Distinct parameter names give distinct invalid-parameter messages. */
  lemma InvalidMessageInjective(a: string, b: string, ca: int, cb: int)
    ensures NewInvalidParameter(a, ca).message == NewInvalidParameter(b, cb).message ==> a == b
  {
  }

  /** The constructor's code argument has no influence on the exception. */
  lemma InvalidIgnoresCode(name: string, c1: int, c2: int)
    ensures NewInvalidParameter(name, c1) == NewInvalidParameter(name, c2)
  {
  }

  /** `new \RuntimeException(sprintf(...))` from a missing validation rule; PHP's default code is 0. */
  function NewRuntime(field: string): (e: Exc)
    ensures e.kind == Runtime && e.code == 0
  {
    Exc(Runtime, "requested validator for '" + field + "' doesn't exist. logging error", 0)
  }

  /** An exception of a class whose source is not modelled, built from its constructor argument. */
  function NewException(kind: Kind, arg: string, classes: Classes): (e: Exc)
    requires kind != ParameterInvalid && kind != Runtime && kind != Validation
    ensures e.kind == kind
    ensures e.code == classes.code(kind)
  {
    Exc(kind, classes.message(kind, arg), classes.code(kind))
  }

  /** The exception the validation library throws when the validator named
      `name` refuses `value` at link `link`. */
  function NewValidation(name: string, link: Constraint, value: string, classes: Classes): (e: Exc)
    ensures e.kind == Validation
    ensures e.code == classes.code(Validation)
  {
    Exc(Validation, classes.refusal(name, link, value), classes.code(Validation))
  }

  /** `$e->getCode() ?: $fallback`: the code, unless it is 0. */
  function CodeOr(e: Exc, fallback: int): (status: int)
    ensures e.code != 0 ==> status == e.code
    ensures e.code == 0 ==> status == fallback
  {
    if e.code != 0 then e.code else fallback
  }

  /** An invalid-parameter exception never falls back: its status is 400 under any fallback. */
  lemma InvalidNeverFallsBack(name: string, code: int, fallback: int)
    ensures CodeOr(NewInvalidParameter(name, code), fallback) == BadRequest
  {
  }
}
