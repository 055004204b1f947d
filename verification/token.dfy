/** Bearer-token authentication (`RequestTokenValidation`). The session's
    cached access token is an explicit input and output: a cache hit accepts at
    once, a stale cache entry is dropped before the full check, and a full check
    that succeeds caches the token. */
module TokenValidation {
  import opened Wrappers
  import opened Php
  import opened Exceptions
  import opened Http
  import opened Users

  /** The outcome and the session's cached token afterwards. */
  datatype Step = Step(outcome: Outcome, session: Option<string>)

  /** The pattern `#Bearer\s(\S+)#` matches at position `i`. */
  predicate MatchesAt(line: string, i: nat) {
    i + 8 <= |line| && line[i..i + 6] == "Bearer" && IsSpace(line[i + 6]) && !IsSpace(line[i + 7])
  }

  /** End of the run of non-whitespace characters starting at `j`. */
  function RunEnd(line: string, j: nat): (k: nat)
    requires j <= |line|
    ensures j <= k <= |line|
    ensures forall m :: j <= m < k ==> !IsSpace(line[m])
    ensures k == |line| || IsSpace(line[k])
    decreases |line| - j
  {
    if j == |line| || IsSpace(line[j]) then j else RunEnd(line, j + 1)
  }

  /** The leftmost position at or after `i` where the pattern matches. */
  function SearchFrom(line: string, i: nat): (r: Option<nat>)
    ensures r.Some? ==> i <= r.value && MatchesAt(line, r.value)
    ensures r.Some? ==> forall j: nat :: i <= j < r.value ==> !MatchesAt(line, j)
    ensures r.None? ==> forall j: nat :: i <= j ==> !MatchesAt(line, j)
    decreases |line| - i
  {
    if i + 8 > |line| then None
    else if MatchesAt(line, i) then Some(i)
    else SearchFrom(line, i + 1)
  }

  /** `preg_match('#Bearer\s(\S+)#', $line, $matches)` and `$matches[1]`: the
      greedy non-whitespace group of the leftmost match. */
  function BearerToken(line: string): (r: Option<string>)
    ensures r.None? <==> forall i: nat :: !MatchesAt(line, i)
    ensures r.Some? ==> |r.value| > 0 && forall k :: 0 <= k < |r.value| ==> !IsSpace(r.value[k])
    ensures r.Some? ==> exists i: nat ::
              MatchesAt(line, i) && (forall j: nat :: j < i ==> !MatchesAt(line, j)) &&
              i + 7 + |r.value| <= |line| && line[i + 7..i + 7 + |r.value|] == r.value &&
              (i + 7 + |r.value| == |line| || IsSpace(line[i + 7 + |r.value|]))
  {
    match SearchFrom(line, 0)
    case None => None
    case Some(i) =>
      var t := line[i + 7..RunEnd(line, i + 7)];
      assert forall k :: 0 <= k < |t| ==> t[k] == line[i + 7 + k];
      Some(t)
  }

  /** A header that is exactly `Bearer ` and a token gives that token back. */
  lemma BearerRoundTrip(t: string)
    requires |t| > 0 && forall k :: 0 <= k < |t| ==> !IsSpace(t[k])
    ensures BearerToken("Bearer " + t) == Some(t)
  {
    var line := "Bearer " + t;
    assert line[0..6] == "Bearer";
    assert line[7] == t[0];
    assert MatchesAt(line, 0);
    assert forall m :: 7 <= m < |line| ==> line[m] == t[m - 7];
    RunEndReachesEnd(line, 7);
    assert SearchFrom(line, 0) == Some(0);
    assert line[7..|line|] == t;
  }

  lemma {:induction false} RunEndReachesEnd(line: string, j: nat)
    requires j <= |line|
    requires forall m :: j <= m < |line| ==> !IsSpace(line[m])
    ensures RunEnd(line, j) == |line|
    decreases |line| - j
  {
    if j < |line| {
      RunEndReachesEnd(line, j + 1);
    }
  }

  /** The token the request presents, if its `Authorization` header carries one. */
  function Presented(req: Request): Option<string> {
    match req.authorization
    case None => None
    case Some(line) => BearerToken(line)
  }

  /** The full check by credentials: both credentials sanitise to truthy strings,
      an active user has them, and that user's token is the presented one and
      still valid. */
  predicate CredentialsAccept(req: Request, token: string, store: Store, lib: Library) {
    && Param(req, "username").Some?
    && Param(req, "password").Some?
    && var u := lib.sanitize(Param(req, "username").value);
    && var p := lib.sanitize(Param(req, "password").value);
    && !Falsy(u) && !Falsy(p)
    && (u, p) in store
    && store[(u, p)].accessToken == Some(AccessToken(token, true))
  }

  /** The full verification in the `try` block of `__invoke`: the stored token on success,
      else the first failure in the order missing username, missing password,
      invalid username, invalid password, no user, no token, token mismatch,
      token expired. */
  function Authenticate(req: Request, token: string, store: Store, lib: Library): (r: Result<string, Exc>)
    ensures r.Ok? <==> CredentialsAccept(req, token, store, lib)
    ensures r.Ok? ==> r.value == token
    ensures r.Err? ==> r.error.kind in {ParameterMissing, ParameterInvalid, Authentication}
  {
    match (Param(req, "username"), Param(req, "password"))
    case (None, _) => Err(NewException(ParameterMissing, "username", lib.classes))
    case (_, None) => Err(NewException(ParameterMissing, "password", lib.classes))
    case (Some(rawUser), Some(rawPassword)) =>
      var username := lib.sanitize(rawUser);
      var password := lib.sanitize(rawPassword);
      if Falsy(username) then Err(NewInvalidParameter("username", 0))
      else if Falsy(password) then Err(NewInvalidParameter("password", 0))
      else match FindActive(store, username, password)
        case None => Err(NewException(Authentication, "no user with such credentials", lib.classes))
        case Some(user) =>
          match user.accessToken
          case None => Err(NewException(Authentication, "user has no token. request new token by visiting /token/request", lib.classes))
          case Some(accessToken) =>
            if token != accessToken.token then Err(NewException(Authentication, "token mismatch", lib.classes))
            else if !accessToken.isValid then Err(NewException(Authentication, "token expired. request a new one", lib.classes))
            else Ok(accessToken.token)
  }

  /** `RequestTokenValidation::__invoke` with the session's cached token in and out. */
  function Invoke(req: Request, session: Option<string>, store: Store, lib: Library): (r: Step)
    ensures Presented(req).None? ==> r.outcome.Reject? && r.session == session
    ensures req.authorization.None? ==>
              r.outcome == Respond(NewException(HttpHeader, "Authorization header missing", lib.classes), lib.classes.code(HttpHeader))
    ensures req.authorization.Some? && Presented(req).None? ==>
              r.outcome == Respond(NewException(HttpHeader, "no Bearer token found in Authorization header", lib.classes), lib.classes.code(HttpHeader))
    ensures Presented(req).Some? && session == Presented(req) ==> r == Step(Next, session)
    ensures Presented(req).Some? && session != Presented(req) ==>
              (r.outcome.Next? <==> CredentialsAccept(req, Presented(req).value, store, lib)) &&
              (r.outcome.Reject? ==> r.session.None?)
    ensures r.outcome.Next? ==> Presented(req).Some? && r.session == Presented(req)
    ensures Presented(req).Some? && session != Presented(req) && Authenticate(req, Presented(req).value, store, lib).Err? ==>
              var e := Authenticate(req, Presented(req).value, store, lib).error;
              r == Step(Respond(e, e.code), None)
    ensures !r.outcome.Uncaught?
  {
    match req.authorization
    case None =>
      var e := NewException(HttpHeader, "Authorization header missing", lib.classes);
      Step(Respond(e, e.code), session)
    case Some(line) =>
      match BearerToken(line)
      case None =>
        var e := NewException(HttpHeader, "no Bearer token found in Authorization header", lib.classes);
        Step(Respond(e, e.code), session)
      case Some(token) =>
        if session == Some(token) then Step(Next, session)
        else
          // a missing entry stays missing; a stale one is unset
          var cleared: Option<string> := None;
          match Authenticate(req, token, store, lib)
          case Err(e) => Step(Respond(e, e.code), cleared)
          case Ok(stored) => Step(Next, Some(stored))
  }

  /** A cache hit answers without looking at the credentials or the user store:
      the parameters and the store make no difference. */
  lemma CacheHitSkipsStore(req: Request, params: map<string, string>, session: Option<string>,
                           store1: Store, store2: Store, lib: Library)
    requires Presented(req).Some? && session == Presented(req)
    ensures Invoke(req, session, store1, lib) == Invoke(req.(params := params), session, store2, lib)
    ensures Invoke(req, session, store1, lib).outcome == Next
  {
  }

  /** After a success the session holds the presented token, so the same
      request is then a cache hit whatever the store says. */
  lemma SuccessThenReplayHits(req: Request, session: Option<string>, store: Store, later: Store, lib: Library)
    requires Invoke(req, session, store, lib).outcome.Next?
    ensures Invoke(req, Invoke(req, session, store, lib).session, later, lib) ==
            Step(Next, Invoke(req, session, store, lib).session)
  {
  }

  /** The cached token after a call is the one before (when no token was
      presented, or on a cache hit), the presented one, or nothing. */
  lemma SessionAfterwards(req: Request, session: Option<string>, store: Store, lib: Library)
    ensures var s := Invoke(req, session, store, lib).session;
            s == session || s.None? || s == Presented(req)
  {
  }

  /** The failures of the full check come in a fixed order: each applies only
      when every earlier check passed, whatever the later inputs are. */
  lemma FailureOrder(req: Request, token: string, store: Store, lib: Library)
    ensures Param(req, "username").None? ==>
              Authenticate(req, token, store, lib) == Err(NewException(ParameterMissing, "username", lib.classes))
    ensures Param(req, "username").Some? && Param(req, "password").None? ==>
              Authenticate(req, token, store, lib) == Err(NewException(ParameterMissing, "password", lib.classes))
    ensures Param(req, "username").Some? && Param(req, "password").Some? ==>
              var u := lib.sanitize(Param(req, "username").value);
              var p := lib.sanitize(Param(req, "password").value);
              && (Falsy(u) ==> Authenticate(req, token, store, lib) == Err(NewInvalidParameter("username", 0)))
              && (!Falsy(u) && Falsy(p) ==> Authenticate(req, token, store, lib) == Err(NewInvalidParameter("password", 0)))
              && (!Falsy(u) && !Falsy(p) && (u, p) !in store ==>
                    Authenticate(req, token, store, lib) == Err(NewException(Authentication, "no user with such credentials", lib.classes)))
              && (!Falsy(u) && !Falsy(p) && (u, p) in store && store[(u, p)].accessToken.None? ==>
                    Authenticate(req, token, store, lib) == Err(NewException(Authentication, "user has no token. request new token by visiting /token/request", lib.classes)))
              && (!Falsy(u) && !Falsy(p) && (u, p) in store && store[(u, p)].accessToken.Some? &&
                  store[(u, p)].accessToken.value.token != token ==>
                    Authenticate(req, token, store, lib) == Err(NewException(Authentication, "token mismatch", lib.classes)))
              && (!Falsy(u) && !Falsy(p) && (u, p) in store && store[(u, p)].accessToken.Some? &&
                  store[(u, p)].accessToken.value.token == token && !store[(u, p)].accessToken.value.isValid ==>
                    Authenticate(req, token, store, lib) == Err(NewException(Authentication, "token expired. request a new one", lib.classes)))
  {
  }
}
