/**
 * The authentication middleware: the decision taken on a request's
 * Authorization header before any protected handler runs.
 */
module Auth {
  import opened Domain
  import opened Db
  import opened UserModel

  const NoToken := "No token, authorization denied"
  const TokenInvalid := "Token is not valid"

  /** Either the request is answered here, or `next` runs once with `req.user` set. */
  datatype Gate = Deny(status: int, error: string) | Next(user: Identity)

  /**
   * `header` is the Authorization header (absent or empty both count as
   * missing); `lookupFails` says whether the token lookup throws.
   */
  function Authenticate(users: seq<User>, header: Option<string>, lookupFails: bool): (r: Gate)
    ensures !Present(header) ==> r == Deny(401, NoToken)
    ensures Present(header) && lookupFails ==> r == Deny(500, ServerError)
    ensures Present(header) && !lookupFails ==>
              (r.Next? <==> exists u :: u in users && u.accessToken == header)
    ensures Present(header) && !lookupFails && r.Deny? ==> r == Deny(401, TokenInvalid)
    ensures r.Next? ==> exists u :: u in users && u.accessToken == header && r.user == IdentityOf(u)
  {
    if !Present(header) then Deny(401, NoToken)
    else if lookupFails then Deny(500, ServerError)
    else match VerifyToken(users, header.value)
      case None => Deny(401, TokenInvalid)
      case Some(user) => Next(user)
  }

  /**
   * After a successful login, the issued token passes the gate as the user
   * who logged in, and the token that user held before is turned away.
   */
  lemma LoginSwitchesSession(users: seq<User>, i: nat, token: string)
    requires UniqueUserIds(users) && UniqueTokens(users) && i < |users| && FreshToken(users, token)
    ensures var users' := SetToken(users, users[i].id, token);
            && Authenticate(users', Some(token), false) == Next(IdentityOf(users[i]))
            && (Present(users[i].accessToken) ==>
                  Authenticate(users', users[i].accessToken, false) == Deny(401, TokenInvalid))
  {
    NewTokenVerifies(users, i, token);
    if users[i].accessToken.Some? {
      OldTokenRevoked(users, i, token);
    }
  }
}
