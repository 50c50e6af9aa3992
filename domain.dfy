/**
 * Rows of the three tables of the bank (Users, Accounts, Transactions),
 * the projections the queries select, and the shape of an HTTP reply.
 * Money is held as an exact number of cents.
 */
module Domain {

  datatype Option<+T> = None | Some(value: T)

  /** The two roles a user row can carry. */
  datatype Role = Customer | Banker

  /** A full Users row, as `SELECT *` returns it. */
  datatype User = User(
    id: int,
    username: string,
    email: string,
    fullName: string,
    passwordHash: string,
    role: Role,
    accessToken: Option<string>)

  /** The columns selected by token lookup and by the customer listing: no password, no token. */
  datatype Identity = Identity(id: int, username: string, email: string, fullName: string, role: Role)

  /** The columns selected by user lookup by id and returned by login: everything but the password. */
  datatype PublicUser = PublicUser(
    id: int,
    username: string,
    email: string,
    fullName: string,
    role: Role,
    accessToken: Option<string>)

  datatype Account = Account(id: int, userId: int, accountNumber: string, balance: int, createdAt: int)

  datatype TxnKind = Deposit | Withdrawal

  /** A Transactions row. */
  datatype Txn = Txn(
    id: int,
    accountId: int,
    kind: TxnKind,
    amount: int,
    balanceBefore: int,
    balanceAfter: int,
    createdAt: int)

  /** The role gate every banker-only handler applies to the authenticated user. */
  predicate IsBanker(caller: Identity) {
    caller.role == Banker
  }

  function IdentityOf(u: User): Identity {
    Identity(u.id, u.username, u.email, u.fullName, u.role)
  }

  function PublicOf(u: User): PublicUser {
    PublicUser(u.id, u.username, u.email, u.fullName, u.role, u.accessToken)
  }

  /** JavaScript truthiness of an optional string field of a request: absent and "" are both falsy. */
  predicate Present(s: Option<string>) {
    s.Some? && s.value != ""
  }

  /** An HTTP reply: a status code and either a JSON payload or `{ error }`. */
  datatype Body<+T> = Payload(value: T) | Error(error: string)
  datatype Response<+T> = Response(status: int, body: Body<T>)

  const ServerError := "Server error"
  const AccessDenied := "Access denied"

  /**
   * Index of the first row that satisfies `p`, the row a query returns as
   * `rows[0]` when it scans the table in order.
   */
  function FirstIndex<T>(rows: seq<T>, p: T -> bool): (r: Option<nat>)
    ensures r.Some? ==> r.value < |rows| && p(rows[r.value])
    ensures r.Some? ==> forall j :: 0 <= j < r.value ==> !p(rows[j])
    ensures r.None? <==> forall j :: 0 <= j < |rows| ==> !p(rows[j])
  {
    if rows == [] then None
    else if p(rows[0]) then Some(0)
    else match FirstIndex(rows[1..], p)
      case None => None
      case Some(k) => Some(k + 1)
  }

  /** When exactly one row satisfies `p`, the first match is that row. */
  lemma FirstIndexOfUnique<T>(rows: seq<T>, p: T -> bool, i: nat)
    requires i < |rows| && p(rows[i])
    requires forall j :: 0 <= j < |rows| && j != i ==> !p(rows[j])
    ensures FirstIndex(rows, p) == Some(i)
  {
  }

  /** Two tables on which `p` holds at the same positions have the same first match. */
  lemma FirstIndexAgrees<T>(a: seq<T>, b: seq<T>, p: T -> bool)
    requires |a| == |b| && forall j :: 0 <= j < |a| ==> p(a[j]) == p(b[j])
    ensures FirstIndex(a, p) == FirstIndex(b, p)
  {
  }
}
