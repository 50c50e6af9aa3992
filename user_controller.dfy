/**
 * The user request handlers: login (public), the caller's profile, and the
 * two banker views (all customers, one customer's details).
 */
module UserController {
  import opened Domain
  import opened Ledger
  import opened Db
  import UserModel
  import AccountModel
  import TransactionModel

  const CredentialsRequired := "Username and password are required"
  const InvalidCredentials := "Invalid credentials"
  const UserNotFound := "User not found"

  /**
   * POST /login. `dbError` says whether the store throws on the credentials
   * lookup; the password check and the token generator are supplied.
   */
  method Login(db: Database, username: Option<string>, password: Option<string>,
               passwordMatches: (string, string) -> bool, freshToken: string, dbError: bool)
    returns (resp: Response<PublicUser>)
    requires db.Valid() && UserModel.FreshToken(db.users, freshToken)
    modifies db`users
    ensures db.Valid()
    ensures !(Present(username) && Present(password)) ==>
              resp == Response(400, Error(CredentialsRequired)) && db.users == old(db.users)
    ensures Present(username) && Present(password) && dbError ==>
              resp == Response(500, Error(ServerError)) && db.users == old(db.users)
    ensures Present(username) && Present(password) && !dbError ==>
              var u := UserModel.Accepted(old(db.users), username.value, password.value, passwordMatches);
              && (u.None? ==> resp == Response(401, Error(InvalidCredentials)) && db.users == old(db.users))
              && (u.Some? ==>
                    && resp == Response(200, Payload(PublicOf(u.value).(accessToken := Some(freshToken))))
                    && db.users == UserModel.SetToken(old(db.users), u.value.id, freshToken))
  {
    if !Present(username) || !Present(password) {
      return Response(400, Error(CredentialsRequired));
    }
    if dbError {
      return Response(500, Error(ServerError));
    }
    var user := UserModel.Login(db, username.value, password.value, passwordMatches, freshToken);
    if user.None? {
      return Response(401, Error(InvalidCredentials));
    }
    resp := Response(200, Payload(user.value));
  }

  /** GET /profile: the authenticated user as the middleware attached it. */
  function GetProfile(caller: Identity): (r: Response<Identity>)
    ensures r.status == 200 && r.body == Payload(caller)
  {
    Response(200, Payload(caller))
  }

  /** GET /all: bankers only; the customers, never a banker. */
  function GetAllUsers(users: seq<User>, caller: Identity, dbError: bool): (r: Response<seq<Identity>>)
    ensures !IsBanker(caller) ==> r == Response(403, Error(AccessDenied))
    ensures IsBanker(caller) && dbError ==> r == Response(500, Error(ServerError))
    ensures r.status == 200 <==> IsBanker(caller) && !dbError
    ensures r.status == 200 ==>
              && r.body.Payload?
              && forall x :: x in r.body.value <==> exists u :: u in users && u.role == Customer && x == IdentityOf(u)
  {
    if !IsBanker(caller) then Response(403, Error(AccessDenied))
    else if dbError then Response(500, Error(ServerError))
    else Response(200, Payload(UserModel.GetAllUsers(users)))
  }

  /** The body of a user-details reply. */
  datatype UserDetails = UserDetails(user: PublicUser, accounts: set<Account>, transactions: seq<Txn>)

  /** The first `n` elements of `a` are newest first. */
  ghost predicate SortedPrefix(a: array<Txn>, n: int)
    reads a
  {
    forall p, q :: 0 <= p < q < n && q < a.Length ==> a[p].createdAt >= a[q].createdAt
  }

  /** Exchanges two neighbouring elements. */
  method Swap(a: array<Txn>, i: int, j: int)
    requires 0 <= i < j < a.Length
    modifies a
    ensures a[i] == old(a[j]) && a[j] == old(a[i])
    ensures forall k :: 0 <= k < a.Length && k != i && k != j ==> a[k] == old(a[k])
    ensures multiset(a[..]) == multiset(old(a[..]))
  {
    a[i], a[j] := a[j], a[i];
  }

  /**
   * One pass of insertion: moves a[i] left past every strictly older
   * element, so that the first i + 1 elements are newest first.
   */
  method InsertLeft(a: array<Txn>, i: int)
    requires 0 <= i < a.Length && SortedPrefix(a, i)
    modifies a
    ensures SortedPrefix(a, i + 1)
    ensures multiset(a[..]) == multiset(old(a[..]))
    ensures forall k :: i < k < a.Length ==> a[k] == old(a[k])
  {
    var j := i;
    while j > 0 && a[j - 1].createdAt < a[j].createdAt
      invariant 0 <= j <= i
      invariant forall p, q :: 0 <= p < q <= i && p != j && q != j ==> a[p].createdAt >= a[q].createdAt
      invariant forall q :: j < q <= i ==> a[j].createdAt > a[q].createdAt
      invariant multiset(a[..]) == multiset(old(a[..]))
      invariant forall k :: i < k < a.Length ==> a[k] == old(a[k])
    {
      Swap(a, j - 1, j);
      j := j - 1;
    }
    forall p, q | 0 <= p < q <= i ensures a[p].createdAt >= a[q].createdAt {
      if q == j && p < j - 1 {
        assert a[p].createdAt >= a[j - 1].createdAt;
      }
    }
  }

  /** `transactions.sort((a, b) => b.created_at - a.created_at)`: in place, newest first. */
  method SortNewestFirstInPlace(a: array<Txn>)
    modifies a
    ensures TransactionModel.NewestFirst(a[..])
    ensures multiset(a[..]) == multiset(old(a[..]))
  {
    var i := 0;
    while i < a.Length
      invariant 0 <= i <= a.Length
      invariant SortedPrefix(a, i)
      invariant multiset(a[..]) == multiset(old(a[..]))
    {
      InsertLeft(a, i);
      i := i + 1;
    }
  }

  /**
   * The loop of push calls: the history of each account, newest first,
   * appended account after account, in whatever order the accounts come.
   */
  method GatherTransactions(txns: seq<Txn>, accounts: set<Account>) returns (collected: seq<Txn>)
    requires forall a, b :: a in accounts && b in accounts && a.id == b.id ==> a == b
    ensures multiset(collected) == multiset(TxnsOf(txns, AccountModel.IdsOf(accounts)))
  {
    collected := [];
    var remaining := accounts;
    ghost var done: set<int> := {};
    while remaining != {}
      invariant remaining <= accounts
      invariant done == AccountModel.IdsOf(accounts - remaining)
      invariant multiset(collected) == multiset(TxnsOf(txns, done))
      decreases remaining
    {
      var a :| a in remaining;
      assert a.id !in done;
      TxnsOfUnion(txns, done, a.id);
      collected := collected + TransactionModel.FindByAccountId(txns, a.id);
      assert AccountModel.IdsOf(accounts - (remaining - {a})) == done + {a.id};
      remaining := remaining - {a};
      done := done + {a.id};
    }
    assert accounts - remaining == accounts;
  }

  /**
   * GET /:userId, bankers only: the user (404 if absent), their accounts, and
   * the transactions of all those accounts gathered account by account and
   * then sorted newest first.
   */
  method GetUserDetails(db: Database, caller: Identity, userId: int, dbError: bool) returns (resp: Response<UserDetails>)
    requires db.Valid()
    ensures !IsBanker(caller) ==> resp == Response(403, Error(AccessDenied))
    ensures IsBanker(caller) && dbError ==> resp == Response(500, Error(ServerError))
    ensures IsBanker(caller) && !dbError && UserModel.FindById(db.users, userId).None? ==>
              resp == Response(404, Error(UserNotFound))
    ensures resp.status == 200 <==> IsBanker(caller) && !dbError && UserModel.FindById(db.users, userId).Some?
    ensures resp.status == 200 ==>
              && resp.body.Payload?
              && Some(resp.body.value.user) == UserModel.FindById(db.users, userId)
              && resp.body.value.accounts == AccountModel.FindByUserId(db.accounts, userId)
              && TransactionModel.NewestFirst(resp.body.value.transactions)
              && multiset(resp.body.value.transactions) == multiset(TransactionModel.FindByUserId(db.accounts, db.txns, userId))
  {
    if !IsBanker(caller) {
      return Response(403, Error(AccessDenied));
    }
    if dbError {
      return Response(500, Error(ServerError));
    }
    var user := UserModel.FindById(db.users, userId);
    if user.None? {
      return Response(404, Error(UserNotFound));
    }
    var accounts := AccountModel.FindByUserId(db.accounts, userId);
    AccountModel.FindByUserIdIds(db.accounts, userId);
    var collected := GatherTransactions(db.txns, accounts);
    var sorted := new Txn[|collected|](k requires 0 <= k < |collected| => collected[k]);
    assert sorted[..] == collected;
    SortNewestFirstInPlace(sorted);
    resp := Response(200, Payload(UserDetails(user.value, accounts, sorted[..])));
  }
}
