/** Header validation (`RequestHeadersValidation`): exact-match checks on the
    already-parsed `Accept` line, media type, charset and `version` media-type
    parameter, in that order; the first failing check decides the message. */
module HeadersValidation {
  import opened Wrappers
  import opened Exceptions
  import opened Http

  const Json: string := "application/json"
  const Utf8: string := "utf-8"

  /** The headers are acceptable: `Accept` is exactly JSON, so is the media
      type, the charset is exactly `utf-8`, and a `version` parameter, if
      present, is `1`. */
  predicate Acceptable(req: Request) {
    && req.accept == Some(Json)
    && req.mediaType == Some(Json)
    && req.charset == Some(Utf8)
    && ("version" in req.mediaTypeParams ==> req.mediaTypeParams["version"] == "1")
  }

  /** `sprintf('%s', $v)` of a value that may be null. */
  function Shown(v: Option<string>): string {
    v.GetOr("")
  }

  function HeaderError(arg: string, lib: Library): Exc {
    NewException(HttpHeader, arg, lib.classes)
  }

  /** `RequestHeadersValidation::__invoke`. */
  function Invoke(req: Request, lib: Library): (r: Outcome)
    ensures r.Next? <==> Acceptable(req)
    ensures r.Reject? ==> r.status == lib.classes.code(HttpHeader)
    ensures !r.Uncaught?
    ensures req.accept.None? ==>
              r == Respond(HeaderError("'Accept' header not found in request", lib), lib.classes.code(HttpHeader))
    ensures req.accept.Some? && req.accept != Some(Json) ==>
              r == Respond(HeaderError("value '" + req.accept.value + "' for 'Accept' header not allowed", lib),
                           lib.classes.code(HttpHeader))
    ensures req.accept == Some(Json) && req.mediaType != Some(Json) ==>
              r == Respond(HeaderError("value '" + Shown(req.mediaType) + "' for content type header not allowed", lib),
                           lib.classes.code(HttpHeader))
    ensures req.accept == Some(Json) && req.mediaType == Some(Json) && req.charset != Some(Utf8) ==>
              r == Respond(HeaderError("charset '" + Shown(req.charset) + "' not supported. use 'utf-8'", lib),
                           lib.classes.code(HttpHeader))
    ensures req.accept == Some(Json) && req.mediaType == Some(Json) && req.charset == Some(Utf8) &&
            "version" in req.mediaTypeParams && req.mediaTypeParams["version"] != "1" ==>
              r == Respond(HeaderError("version '" + req.mediaTypeParams["version"] +
                                       "' of content type is not supported. use version '1'", lib),
                           lib.classes.code(HttpHeader))
  {
    var failure :=
      if req.accept.None? then
        Some(HeaderError("'Accept' header not found in request", lib))
      else if req.accept.value != Json then
        Some(HeaderError("value '" + req.accept.value + "' for 'Accept' header not allowed", lib))
      else if req.mediaType != Some(Json) then
        Some(HeaderError("value '" + Shown(req.mediaType) + "' for content type header not allowed", lib))
      else if req.charset != Some(Utf8) then
        Some(HeaderError("charset '" + Shown(req.charset) + "' not supported. use 'utf-8'", lib))
      else if "version" in req.mediaTypeParams && req.mediaTypeParams["version"] != "1" then
        Some(HeaderError("version '" + req.mediaTypeParams["version"] +
                         "' of content type is not supported. use version '1'", lib))
      else None;
    match failure
    case None => Next
    case Some(e) => Respond(e, e.code)
  }

  /** A wrong or missing `Accept` header decides the answer on its own: the
      media type, charset and parameters make no difference, and the next
      handler is never reached. */
  lemma AcceptDecidesFirst(req: Request, mediaType: Option<string>, charset: Option<string>,
                           params: map<string, string>, lib: Library)
    requires req.accept != Some(Json)
    ensures Invoke(req, lib) == Invoke(req.(mediaType := mediaType, charset := charset, mediaTypeParams := params), lib)
    ensures Invoke(req, lib).Reject?
  {
  }

  /** A missing `version` parameter is accepted like `version=1`. */
  lemma VersionOptional(req: Request, lib: Library)
    requires "version" !in req.mediaTypeParams
    ensures Invoke(req, lib) == Invoke(req.(mediaTypeParams := req.mediaTypeParams["version" := "1"]), lib)
  {
  }
}
