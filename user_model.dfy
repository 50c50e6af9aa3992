/**
 * The User model: lookups over the Users table and login, which stores a
 * fresh access token on the user's row (one active token per user).
 * The password check and the token generator are supplied by the caller.
 */
module UserModel {
  import opened Domain
  import opened Db

  /** `SELECT id, username, email, full_name, role, access_token FROM Users WHERE id = ?` */
  function FindById(users: seq<User>, id: int): (r: Option<PublicUser>)
    ensures r.None? <==> forall u :: u in users ==> u.id != id
    ensures r.Some? ==> exists u :: u in users && u.id == id && r.value == PublicOf(u)
  {
    match FirstIndex(users, (u: User) => u.id == id)
    case None => None
    case Some(i) => Some(PublicOf(users[i]))
  }

  /** The login key matches a row's username or its email, exactly. */
  predicate MatchesKey(u: User, key: string) {
    u.username == key || u.email == key
  }

  /** `SELECT * FROM Users WHERE username = ? OR email = ?`, first row */
  function FindByCredentials(users: seq<User>, key: string): (r: Option<User>)
    ensures r.None? <==> forall u :: u in users ==> !MatchesKey(u, key)
    ensures r.Some? ==> exists i :: 0 <= i < |users| && users[i] == r.value && MatchesKey(users[i], key) &&
                          forall j :: 0 <= j < i ==> !MatchesKey(users[j], key)
  {
    match FirstIndex(users, (u: User) => MatchesKey(u, key))
    case None => None
    case Some(i) => Some(users[i])
  }

  /** `SELECT id, username, email, full_name, role FROM Users WHERE access_token = ?` */
  function VerifyToken(users: seq<User>, token: string): (r: Option<Identity>)
    ensures r.None? <==> forall u :: u in users ==> u.accessToken != Some(token)
    ensures r.Some? ==> exists u :: u in users && u.accessToken == Some(token) && r.value == IdentityOf(u)
  {
    match FirstIndex(users, (u: User) => u.accessToken == Some(token))
    case None => None
    case Some(i) => Some(IdentityOf(users[i]))
  }

  /** `SELECT id, username, email, full_name, role FROM Users WHERE role = "customer"` */
  function GetAllUsers(users: seq<User>): (r: seq<Identity>)
    ensures forall x :: x in r <==> exists u :: u in users && u.role == Customer && x == IdentityOf(u)
    ensures forall x :: x in r ==> x.role == Customer
  {
    if users == [] then []
    else
      var last := users[|users| - 1];
      var rest := GetAllUsers(users[..|users| - 1]);
      assert users == users[..|users| - 1] + [last];
      rest + (if last.role == Customer then [IdentityOf(last)] else [])
  }

  /** `UPDATE Users SET access_token = ? WHERE id = ?` */
  function SetToken(users: seq<User>, id: int, token: string): (r: seq<User>)
    ensures |r| == |users|
    ensures forall i :: 0 <= i < |users| && users[i].id != id ==> r[i] == users[i]
    ensures forall i :: 0 <= i < |users| && users[i].id == id ==> r[i] == users[i].(accessToken := Some(token))
  {
    seq(|users|, i requires 0 <= i < |users| =>
      if users[i].id == id then users[i].(accessToken := Some(token)) else users[i])
  }

  /** What the token generator promises: a 36-character token no user holds yet. */
  predicate FreshToken(users: seq<User>, token: string) {
    |token| == 36 && forall u :: u in users ==> u.accessToken != Some(token)
  }

  /** The row a login accepts: the first row matching the key, provided the password matches its hash. */
  function Accepted(users: seq<User>, key: string, password: string, passwordMatches: (string, string) -> bool)
    : (r: Option<User>)
    ensures r.None? <==> FindByCredentials(users, key).None? ||
                         !passwordMatches(password, FindByCredentials(users, key).value.passwordHash)
    ensures r.Some? ==> r == FindByCredentials(users, key)
  {
    match FindByCredentials(users, key)
    case None => None
    case Some(u) => if passwordMatches(password, u.passwordHash) then Some(u) else None
  }

  /**
   * Login by username or email. No matching row, or a password that does not
   * match the row's hash, gives null and changes nothing; otherwise the row's
   * token is replaced by a fresh one, which is returned with the profile.
   */
  method Login(db: Database, key: string, password: string, passwordMatches: (string, string) -> bool, freshToken: string)
    returns (r: Option<PublicUser>)
    requires db.Valid() && FreshToken(db.users, freshToken)
    modifies db`users
    ensures db.Valid()
    ensures var u := Accepted(old(db.users), key, password, passwordMatches);
            && (u.None? ==> r == None && db.users == old(db.users))
            && (u.Some? ==>
                  && r == Some(PublicOf(u.value).(accessToken := Some(freshToken)))
                  && db.users == SetToken(old(db.users), u.value.id, freshToken))
  {
    var user := FindByCredentials(db.users, key);
    if user.None? {
      return None;
    }
    var u := user.value;
    if !passwordMatches(password, u.passwordHash) {
      return None;
    }
    SetTokenKeepsUnique(db.users, u.id, freshToken);
    db.users := SetToken(db.users, u.id, freshToken);
    r := Some(PublicUser(u.id, u.username, u.email, u.fullName, u.role, Some(freshToken)));
  }

  /** Storing a fresh token keeps user ids and tokens unique. */
  lemma SetTokenKeepsUnique(users: seq<User>, id: int, token: string)
    requires UniqueUserIds(users) && UniqueTokens(users) && FreshToken(users, token)
    ensures UniqueUserIds(SetToken(users, id, token)) && UniqueTokens(SetToken(users, id, token))
  {
    var r := SetToken(users, id, token);
    forall i, j | 0 <= i < j < |r| && r[i].accessToken.Some?
      ensures r[i].accessToken != r[j].accessToken
    {
      assert users[i] in users && users[j] in users;
    }
  }

  /** After login, the new token identifies the user who logged in. */
  lemma NewTokenVerifies(users: seq<User>, i: nat, token: string)
    requires UniqueUserIds(users) && i < |users| && FreshToken(users, token)
    ensures VerifyToken(SetToken(users, users[i].id, token), token) == Some(IdentityOf(users[i]))
  {
    var r := SetToken(users, users[i].id, token);
    forall j | 0 <= j < |r| && j != i ensures r[j].accessToken != Some(token) {
      assert users[j] in users;
    }
    FirstIndexOfUnique(r, (u: User) => u.accessToken == Some(token), i);
  }

  /** After login, the token the user held before identifies nobody. */
  lemma OldTokenRevoked(users: seq<User>, i: nat, token: string)
    requires UniqueUserIds(users) && UniqueTokens(users) && i < |users| && FreshToken(users, token)
    requires users[i].accessToken.Some?
    ensures VerifyToken(SetToken(users, users[i].id, token), users[i].accessToken.value) == None
  {
    var r := SetToken(users, users[i].id, token);
    var previous := users[i].accessToken.value;
    forall u | u in r ensures u.accessToken != Some(previous) {
      var j :| 0 <= j < |r| && r[j] == u;
      if j != i {
        assert users[j].id != users[i].id;
        if j < i {
          assert users[j].accessToken != users[i].accessToken;
        }
      }
      assert users[i] in users;
    }
  }

  /** Login leaves every other session as it was. */
  lemma OtherSessionsKept(users: seq<User>, i: nat, token: string, other: string)
    requires UniqueUserIds(users) && i < |users| && FreshToken(users, token)
    requires other != token && users[i].accessToken != Some(other)
    ensures VerifyToken(SetToken(users, users[i].id, token), other) == VerifyToken(users, other)
  {
    var r := SetToken(users, users[i].id, token);
    forall j | 0 <= j < |users| ensures (r[j].accessToken == Some(other)) == (users[j].accessToken == Some(other)) {
      if j != i {
        assert users[j].id != users[i].id;
      }
    }
    assert forall j :: 0 <= j < |users| ==> (r[j].accessToken == Some(other)) == (users[j].accessToken == Some(other));
    var p := (u: User) => u.accessToken == Some(other);
    FirstIndexAgrees(users, r, p);
    match FirstIndex(users, p)
    case None =>
    case Some(k) =>
      assert r[k] == users[k] by {
        if k == i {
          assert false;
        }
      }
  }
}
