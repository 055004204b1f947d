/** Login-credentials validation (`UserCredentialsValidation`): both
    credentials present, sanitised to truthy strings, passing their catalog
    rules, and naming an active user. The first failure answers with its
    message and its code, or 401 when the code is 0. */
module CredentialsValidation {
  import opened Wrappers
  import opened Php
  import opened Exceptions
  import opened Http
  import opened Users
  import opened Rules
  import opened Validator

  /** The username rule of the catalog, link by link: a string, without
      whitespace, of length 2 to 15. */
  predicate UsernameShaped(u: string, lib: Library) {
    lib.holds(StringType, u) && lib.holds(NoWhitespace, u) && lib.holds(Length(2, Some(15)), u)
  }

  /** The password rule of the catalog: the bcrypt-hash pattern. */
  predicate PasswordShaped(p: string, lib: Library) {
    lib.holds(Regex(BcryptPattern), p)
  }

  /** `validateParam($username, 'username')` in exception mode: the catalog's
      username rule is the chain of `UsernameShaped`, and a failure is the
      refusal of the first link the username fails. */
  function CheckUsername(u: string, lib: Library): (r: Result<bool, Exc>)
    ensures r.Ok? <==> UsernameShaped(u, lib)
    ensures !lib.holds(StringType, u) ==> r == Err(Refusal("username", StringType, u, lib))
    ensures lib.holds(StringType, u) && !lib.holds(NoWhitespace, u) ==>
              r == Err(Refusal("username", NoWhitespace, u, lib))
    ensures lib.holds(StringType, u) && lib.holds(NoWhitespace, u) && !lib.holds(Length(2, Some(15)), u) ==>
              r == Err(Refusal("username", Length(2, Some(15)), u, lib))
  {
    UsernameRule();
    var tail := Then(Length(2, Some(15)), Accept);
    var rest := Then(NoWhitespace, tail);
    assert Passes(tail, u, lib.holds) == lib.holds(Length(2, Some(15)), u);
    assert Passes(rest, u, lib.holds) == (lib.holds(NoWhitespace, u) && Passes(tail, u, lib.holds));
    assert FirstRefusal(tail, u, lib.holds) == if lib.holds(Length(2, Some(15)), u) then None else Some(Length(2, Some(15)));
    assert FirstRefusal(rest, u, lib.holds) ==
           if lib.holds(NoWhitespace, u) then FirstRefusal(tail, u, lib.holds) else Some(NoWhitespace);
    assert FirstRefusal(Then(StringType, rest), u, lib.holds) ==
           if lib.holds(StringType, u) then FirstRefusal(rest, u, lib.holds) else Some(StringType);
    ValidateParam(u, "username", true, lib)
  }

  /** `validateParam($password, 'password')` in exception mode. */
  function CheckPassword(p: string, lib: Library): (r: Result<bool, Exc>)
    ensures r.Ok? <==> PasswordShaped(p, lib)
    ensures r.Err? ==> r.error == Refusal("password", Regex(BcryptPattern), p, lib)
  {
    PasswordRule();
    assert Passes(Then(Regex(BcryptPattern), Accept), p, lib.holds) == lib.holds(Regex(BcryptPattern), p);
    assert FirstRefusal(Then(Regex(BcryptPattern), Accept), p, lib.holds) ==
           if lib.holds(Regex(BcryptPattern), p) then None else Some(Regex(BcryptPattern));
    ValidateParam(p, "password", true, lib)
  }

  /** Reference definition of a successful login check: both parameters are
      present, sanitise to truthy strings that have the catalog's shape, and
      an active user has exactly those sanitised credentials. */
  predicate Accepts(req: Request, store: Store, lib: Library) {
    && Param(req, "username").Some?
    && Param(req, "password").Some?
    && var u := lib.sanitize(Param(req, "username").value);
    && var p := lib.sanitize(Param(req, "password").value);
    && !Falsy(u) && !Falsy(p)
    && UsernameShaped(u, lib) && PasswordShaped(p, lib)
    && (u, p) in store
  }

  /** The body of the `try` block of `__invoke`: the user found, or the
      exception thrown. */
  function Check(req: Request, store: Store, lib: Library): (r: Result<User, Exc>)
    ensures r.Err? ==> r.error.kind in {ParameterMissing, ParameterInvalid, Validation, Authentication}
  {
    match (Param(req, "username"), Param(req, "password"))
    case (None, _) => Err(NewException(ParameterMissing, "username", lib.classes))
    case (_, None) => Err(NewException(ParameterMissing, "password", lib.classes))
    case (Some(rawUser), Some(rawPassword)) =>
      var username := lib.sanitize(rawUser);
      var password := lib.sanitize(rawPassword);
      if Falsy(username) then Err(NewInvalidParameter("username", 0))
      else if Falsy(password) then Err(NewInvalidParameter("password", 0))
      else
        match CheckUsername(username, lib)
        case Err(e) => Err(e)
        case Ok(_) =>
          match CheckPassword(password, lib)
          case Err(e) => Err(e)
          case Ok(_) =>
            match FindActive(store, username, password)
            case None => Err(NewException(Authentication, "no such user", lib.classes))
            case Some(user) => Ok(user)
  }

  /** `UserCredentialsValidation::__invoke`. Every exception the check can
      throw is caught, so the answer is to hand the request on or a rejection. */
  function Invoke(req: Request, store: Store, lib: Library): (r: Outcome)
    ensures !r.Uncaught?
    ensures Check(req, store, lib).Err? ==>
              var e := Check(req, store, lib).error;
              r == Respond(e, CodeOr(e, Unauthorized))
  {
    match Check(req, store, lib)
    case Ok(_) => Next
    case Err(e) =>
      if e.kind == Runtime then Uncaught(e)
      else Respond(e, CodeOr(e, Unauthorized))
  }

  /** The middleware lets a request through exactly when the reference
      definition accepts it. */
  lemma InvokeAccepts(req: Request, store: Store, lib: Library)
    ensures Invoke(req, store, lib).Next? <==> Accepts(req, store, lib)
  {
  }

  /** The checks come in a fixed order: each failure applies only when every
      earlier check passed, whatever the later inputs are. */
  lemma FailureOrder(req: Request, store: Store, lib: Library)
    ensures Param(req, "username").None? ==>
              Check(req, store, lib) == Err(NewException(ParameterMissing, "username", lib.classes))
    ensures Param(req, "username").Some? && Param(req, "password").None? ==>
              Check(req, store, lib) == Err(NewException(ParameterMissing, "password", lib.classes))
    ensures Param(req, "username").Some? && Param(req, "password").Some? ==>
              var u := lib.sanitize(Param(req, "username").value);
              var p := lib.sanitize(Param(req, "password").value);
              && (Falsy(u) ==> Check(req, store, lib) == Err(NewInvalidParameter("username", 0)))
              && (!Falsy(u) && Falsy(p) ==> Check(req, store, lib) == Err(NewInvalidParameter("password", 0)))
              && (!Falsy(u) && !Falsy(p) && !UsernameShaped(u, lib) ==>
                    Check(req, store, lib) == Err(CheckUsername(u, lib).error))
              && (!Falsy(u) && !Falsy(p) && UsernameShaped(u, lib) && !PasswordShaped(p, lib) ==>
                    Check(req, store, lib) == Err(Refusal("password", Regex(BcryptPattern), p, lib)))
              && (!Falsy(u) && !Falsy(p) && UsernameShaped(u, lib) && PasswordShaped(p, lib) && (u, p) !in store ==>
                    Check(req, store, lib) == Err(NewException(Authentication, "no such user", lib.classes)))
  {
  }

  /** A falsy credential is answered with 400, whatever the fallback status. */
  lemma InvalidCredentialIs400(req: Request, store: Store, lib: Library)
    requires Param(req, "username").Some? && Param(req, "password").Some?
    requires Falsy(lib.sanitize(Param(req, "username").value)) || Falsy(lib.sanitize(Param(req, "password").value))
    ensures Invoke(req, store, lib).Reject? && Invoke(req, store, lib).status == BadRequest
  {
  }

  /** Only the sanitised credentials matter: requests whose credentials are
      present in both or neither, and sanitise alike, get the same answer. */
  lemma SanitizedDecides(req1: Request, req2: Request, store: Store, lib: Library)
    requires Param(req1, "username").Some? == Param(req2, "username").Some?
    requires Param(req1, "password").Some? == Param(req2, "password").Some?
    requires Param(req1, "username").Some? && Param(req1, "password").Some? ==>
               && lib.sanitize(Param(req1, "username").value) == lib.sanitize(Param(req2, "username").value)
               && lib.sanitize(Param(req1, "password").value) == lib.sanitize(Param(req2, "password").value)
    ensures Invoke(req1, store, lib) == Invoke(req2, store, lib)
  {
  }
}
