/**
 * The front end's authentication store: the signed-in user, the API token,
 * the token's copy in the browser's local storage and the Authorization
 * header sent with every request. Each server call is an input.
 */
module AuthStore {
  import opened Wrappers
  import opened Text

  /** The user record the API returns. */
  datatype AuthUser = AuthUser(id: nat, name: string, email: string, role: string)

  /** The store's state together with the two places it mirrors the token into. */
  datatype AuthState = AuthState(user: Option<AuthUser>, token: Option<string>, saved: Option<string>, header: Option<string>)

  /** The reply to `POST /api/login`. */
  datatype LoginReply = LoggedIn(user: AuthUser, token: string) | LoginFailed

  /** The reply to `GET /api/user`. */
  datatype UserReply = Fetched(user: AuthUser) | FetchFailed

  /** JavaScript's `!!token`: present and not the empty string. */
  predicate HasToken(token: Option<string>)
  {
    token.Some? && token.value != ""
  }

  /** The `isAuthenticated` getter. */
  predicate IsAuthenticated(s: AuthState)
  {
    HasToken(s.token)
  }

  function Bearer(token: string): (h: string)
    ensures IsPrefix("Bearer ", h) && h[7..] == token
  {
    "Bearer " + token
  }

  /**
   * The state after page load: no user and the token read back from local
   * storage; the start-up code sets the header only for a non-empty token.
   */
  function Initial(saved: Option<string>): (s: AuthState)
    ensures s.user.None? && s.token == saved && s.saved == saved
    ensures s.header.Some? <==> HasToken(saved)
    ensures Mirrored(s)
  {
    AuthState(None, saved, saved, if HasToken(saved) then Some(Bearer(saved.value)) else None)
  }

  /**
   * The token, its stored copy and the header agree: the copy always equals
   * the token, an authenticated state sends its token, and a state without
   * a token sends no header.
   */
  predicate Mirrored(s: AuthState)
  {
    s.saved == s.token
    && (IsAuthenticated(s) ==> s.header == Some(Bearer(s.token.value)))
    && (s.token.None? ==> s.header.None?)
  }

  /** The state once the token is forgotten everywhere. */
  function SignedOut(): (s: AuthState)
    ensures !IsAuthenticated(s) && s.user.None? && s.saved.None? && s.header.None?
  {
    AuthState(None, None, None, None)
  }

  /** `login`: a success stores user and token everywhere and yields true; a failure yields false and changes nothing. */
  function Login(s: AuthState, reply: LoginReply): (result: (AuthState, bool))
    ensures result.1 <==> reply.LoggedIn?
    ensures !result.1 ==> result.0 == s
    ensures result.1 ==>
            result.0.user == Some(reply.user) && result.0.token == Some(reply.token)
            && result.0.saved == Some(reply.token) && result.0.header == Some(Bearer(reply.token))
  {
    match reply
    case LoginFailed => (s, false)
    case LoggedIn(u, t) => (AuthState(Some(u), Some(t), Some(t), Some(Bearer(t))), true)
  }

  /** `logout`: whatever the server answers, user, token, stored copy and header are all cleared. */
  function Logout(s: AuthState, serverAnswered: bool): (after: AuthState)
    ensures after.user.None? && after.token.None? && after.saved.None? && after.header.None?
    ensures !IsAuthenticated(after)
  {
    SignedOut()
  }

  /**
   * `checkAuth`: without a token it yields false and asks nothing; with one,
   * a fetched user is stored and the token kept, and a failure signs out.
   */
  function CheckAuth(s: AuthState, reply: UserReply): (result: (AuthState, bool))
    ensures !IsAuthenticated(s) ==> result == (s, false)
    ensures IsAuthenticated(s) && reply.Fetched? ==>
            result.1 && result.0 == s.(user := Some(reply.user))
    ensures IsAuthenticated(s) && reply.FetchFailed? ==>
            !result.1 && result.0 == SignedOut()
    ensures result.1 <==> IsAuthenticated(result.0) && result.0.user.Some? && IsAuthenticated(s)
  {
    if !IsAuthenticated(s) then (s, false)
    else
      match reply
      case Fetched(u) => (s.(user := Some(u)), true)
      case FetchFailed => (SignedOut(), false)
  }

  /** Every action keeps the token, its stored copy and the header in agreement. */
  lemma ActionsKeepMirrored(s: AuthState, login: LoginReply, check: UserReply, serverAnswered: bool)
    requires Mirrored(s)
    ensures Mirrored(Login(s, login).0)
    ensures Mirrored(Logout(s, serverAnswered))
    ensures Mirrored(CheckAuth(s, check).0)
  {
  }

  /** A successful login with a non-empty token authenticates; with the empty token it does not, though it returns true. */
  lemma LoginAuthenticatesIffTokenNonEmpty(s: AuthState, u: AuthUser, t: string)
    ensures Login(s, LoggedIn(u, t)).1
    ensures IsAuthenticated(Login(s, LoggedIn(u, t)).0) <==> t != ""
  {
  }
}
