/** The user store the authentication middlewares query. Only what the
    middlewares observe is kept: which (username, password) pairs belong to an
    active user, and that user's access token, if any. */
module Users {
  import opened Wrappers

  /** An access token: its value, and whether its validity window still holds
      (a clock-dependent answer, taken as given). */
  datatype AccessToken = AccessToken(token: string, isValid: bool)

  datatype User = User(accessToken: Option<AccessToken>)

  /** The active users, keyed by the credentials that find them. */
  type Store = map<(string, string), User>

  /** `findOneBy(['username' => $u, 'password' => $p, 'status' => ACTIVE])`. */
  function FindActive(store: Store, username: string, password: string): (r: Option<User>)
    ensures r.Some? <==> (username, password) in store
    ensures r.Some? ==> r.value == store[(username, password)]
  {
    if (username, password) in store then Some(store[(username, password)]) else None
  }
}
