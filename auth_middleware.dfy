/**
 * The Express `AuthMiddleware`: `authenticate` turns an `Authorization: Bearer <token>` header
 * into `req.user`, and `authorize(action)` lets a request through when the permission strategy
 * allows that user the action. A middleware ends by calling `next()` or `next(error)`.
 */
module AuthMiddlewares {
  import opened Common
  import opened Models
  import opened UserStore
  import opened Permission

  /** `next()` or `next(new AppError(...))`. */
  datatype Next = Continue | Fail(error: AppError)

  const BearerPrefix: string := "Bearer "

  /** `req.header('authorization') || ''`. */
  function HeaderValue(header: Option<string>): string {
    if header.Some? then header.value else ""
  }

  /**
   * `header.startsWith('Bearer ') ? header.slice('Bearer '.length) : null`, then `if (!token)`:
   * the empty token is rejected like a missing one.
   */
  function BearerToken(header: string): (t: Option<string>)
    ensures t.Some? <==> |header| > |BearerPrefix| && header[..|BearerPrefix|] == BearerPrefix
    ensures t.Some? ==> t.value != "" && header == BearerPrefix + t.value
  {
    var token := if |header| >= |BearerPrefix| && header[..|BearerPrefix|] == BearerPrefix
                 then Some(header[|BearerPrefix|..]) else None;
    if token.Some? && token.value != "" then token else None
  }

  /** Any non-empty token survives the round trip through a `Bearer` header. */
  lemma BearerTokenRoundTrip(token: string)
    requires token != ""
    ensures BearerToken(BearerPrefix + token) == Some(token)
  {
    assert (BearerPrefix + token)[..|BearerPrefix|] == BearerPrefix;
    assert (BearerPrefix + token)[|BearerPrefix|..] == token;
  }

  /** A missing header, a bare prefix and another scheme carry no token. */
  lemma NoBearerToken()
    ensures BearerToken(HeaderValue(None)) == None
    ensures BearerToken("Bearer ") == None
    ensures BearerToken("Basic abc") == None
  {
    assert "Basic abc"[..|BearerPrefix|][1] != BearerPrefix[1];
  }

  /** The outcome of `authenticate`: 401 without a token or for an unknown one, else the token's user. */
  function Authentication(header: Option<string>, users: seq<StoredUser>): (r: Result<User>)
    ensures r.Err? ==> r.error == Unauthorized
    ensures r.Ok? <==> BearerToken(HeaderValue(header)).Some? && FindUser(users, BearerToken(HeaderValue(header)).value).Some?
  {
    match BearerToken(HeaderValue(header))
    case None => Err(Unauthorized)
    case Some(token) =>
      match FindUser(users, token)
      case None => Err(Unauthorized)
      case Some(user) => Ok(user)
  }

  /**
   * `authenticate` succeeds exactly for a header `Bearer <t>` with a non-empty `t` some stored
   * user holds, and then yields the first such user.
   */
  lemma AuthenticationSpec(users: seq<StoredUser>, i: nat)
    requires i < |users| && users[i].token != ""
    requires forall j :: 0 <= j < i ==> users[j].token != users[i].token
    ensures Authentication(Some(BearerPrefix + users[i].token), users) == Ok(users[i].user)
  {
    BearerTokenRoundTrip(users[i].token);
    FindUserFirst(users, users[i].token, i);
  }

  /** Conversely, a user `authenticate` yields is the first stored holder of the header's token. */
  lemma AuthenticatedUserHoldsToken(header: Option<string>, users: seq<StoredUser>) returns (i: nat)
    requires Authentication(header, users).Ok?
    ensures i < |users| && HeaderValue(header) == BearerPrefix + users[i].token
    ensures Authentication(header, users).value == users[i].user
    ensures forall j :: 0 <= j < i ==> users[j].token != users[i].token
  {
    i := FindUserAt(users, BearerToken(HeaderValue(header)).value);
  }

  /** The pure decision of `authorize(action)`: 401 without a user, 403 when `can` says no. */
  function Authorization(can: (User, Action) -> bool, user: Option<User>, action: Action): (n: Next)
    ensures n == Fail(Unauthorized) <==> user.None?
    ensures n == Fail(Forbidden) <==> user.Some? && !can(user.value, action)
    ensures n == Continue <==> user.Some? && can(user.value, action)
  {
    if user.None? then Fail(Unauthorized)
    else if !can(user.value, action) then Fail(Forbidden)
    else Continue
  }

  /** `RoleBasedPermissionStrategy` as a strategy, with its intended table. */
  function RoleBased(): (can: (User, Action) -> bool)
    ensures forall u: User, a: Action :: can(u, a) == Can(u.role, a)
  {
    (u: User, a: Action) => Can(u.role, a)
  }

  /**
   * `authenticate` then `authorize(action)` under the role-based strategy: 401 unless the header
   * names a stored token, 403 when that user's role may not perform the action, and through otherwise.
   */
  lemma GuardedRoute(header: Option<string>, users: seq<StoredUser>, action: Action)
    ensures var auth := Authentication(header, users);
            var n := if auth.Err? then Fail(auth.error) else Authorization(RoleBased(), Some(auth.value), action);
            && (n == Fail(Unauthorized) <==> auth.Err?)
            && (n == Fail(Forbidden) <==> auth.Ok? && !Can(auth.value.role, action))
            && (n == Continue <==> auth.Ok? && Can(auth.value.role, action))
  {
  }

  /** An Express request: its `authorization` header and the `user` `authenticate` attaches. */
  class Request {
    const authorization: Option<string>
    var user: Option<User>

    constructor (authorization: Option<string>)
      ensures this.authorization == authorization && user == None
    {
      this.authorization := authorization;
      user := None;
    }
  }

  /** The middleware over its user store and strategy; `authorize(action)` on a request is `Authorization(permissions, req.user, action)`. */
  class AuthMiddleware {
    const users: UserRepositoryFile
    const permissions: (User, Action) -> bool

    constructor (users: UserRepositoryFile, permissions: (User, Action) -> bool)
      ensures this.users == users && this.permissions == permissions
    {
      this.users := users;
      this.permissions := permissions;
    }

    /**
     * `authenticate`: on success `req.user` is the token's user and `next()` is called; otherwise
     * `next(401)` and `req.user` is untouched. `findByToken` is asked only when the header carries
     * a token, and then exactly for that token.
     */
    method Authenticate(req: Request) returns (next: Next)
      modifies req, users`lookups
      ensures var auth := Authentication(req.authorization, users.users);
              && (auth.Err? ==> next == Fail(auth.error) && req.user == old(req.user))
              && (auth.Ok? ==> next == Continue && req.user == Some(auth.value))
      ensures var token := BearerToken(HeaderValue(req.authorization));
              users.lookups == old(users.lookups) + if token.Some? then [token.value] else []
    {
      var header := HeaderValue(req.authorization);
      var token := BearerToken(header);
      if token.None? {
        return Fail(Unauthorized);
      }
      var user := users.FindByToken(token.value);
      if user.None? {
        return Fail(Unauthorized);
      }
      req.user := user;
      next := Continue;
    }
  }
}
