/**
 * The Transaction model: read-only queries over the Transactions table.
 * None of them changes the store; they are functions of its rows.
 */
module TransactionModel {
  import opened Domain
  import opened Ledger
  import AccountModel

  /** Ordered by created_at, most recent first. */
  predicate NewestFirst(s: seq<Txn>) {
    forall i, j :: 0 <= i < j < |s| ==> s[i].createdAt >= s[j].createdAt
  }

  /** Places `t` into a newest-first sequence, before every row no newer than it. */
  function Insert(t: Txn, s: seq<Txn>): (r: seq<Txn>)
    requires NewestFirst(s)
    ensures NewestFirst(r)
    ensures multiset(r) == multiset(s) + multiset{t}
    ensures |r| == |s| + 1
  {
    if s == [] then [t]
    else if t.createdAt >= s[0].createdAt then
      PrependKeepsOrder(t, s);
      [t] + s
    else
      var rest := Insert(t, s[1..]);
      assert s == [s[0]] + s[1..];
      HeadNoOlderThanRest(s, t, rest);
      PrependKeepsOrder(s[0], rest);
      [s[0]] + rest
  }

  /** A row no older than the head of a newest-first sequence can go in front of it. */
  lemma PrependKeepsOrder(x: Txn, s: seq<Txn>)
    requires NewestFirst(s) && (s == [] || x.createdAt >= s[0].createdAt)
    ensures NewestFirst([x] + s)
  {
    var r := [x] + s;
    forall i, j | 0 <= i < j < |r| ensures r[i].createdAt >= r[j].createdAt {
      if i == 0 && j > 1 {
        assert r[j] == s[j - 1];
      }
    }
  }

  /**
   * When `t` is older than the head of `s`, whatever `t` is inserted into
   * among the rest of `s` starts with a row no newer than that head.
   */
  lemma HeadNoOlderThanRest(s: seq<Txn>, t: Txn, rest: seq<Txn>)
    requires NewestFirst(s) && s != [] && t.createdAt < s[0].createdAt
    requires multiset(rest) == multiset(s[1..]) + multiset{t}
    ensures rest != [] && s[0].createdAt >= rest[0].createdAt
  {
    assert rest[0] in multiset(rest) by {
      assert |rest| == |multiset(rest)| > 0;
    }
    if rest[0] != t {
      assert rest[0] in s[1..];
    }
  }

  /**
   * `ORDER BY created_at DESC`. SQL leaves the order of rows with equal
   * created_at open; this sort picks one of the allowed orders (table order).
   */
  function SortNewestFirst(s: seq<Txn>): (r: seq<Txn>)
    ensures NewestFirst(r)
    ensures multiset(r) == multiset(s)
  {
    if s == [] then []
    else
      assert s == [s[0]] + s[1..];
      Insert(s[0], SortNewestFirst(s[1..]))
  }

  /** `SELECT * FROM Transactions WHERE id = ?` */
  function FindById(txns: seq<Txn>, id: int): (r: Option<Txn>)
    ensures r.Some? ==> r.value in txns && r.value.id == id
    ensures r.None? <==> forall t :: t in txns ==> t.id != id
  {
    match FirstIndex(txns, (t: Txn) => t.id == id)
    case None => None
    case Some(i) => Some(txns[i])
  }

  /** `SELECT * FROM Transactions WHERE account_id = ? ORDER BY created_at DESC` */
  function FindByAccountId(txns: seq<Txn>, accountId: int): (r: seq<Txn>)
    ensures NewestFirst(r)
    ensures multiset(r) == multiset(History(txns, accountId))
    ensures forall t :: t in r <==> t in txns && t.accountId == accountId
  {
    var r := SortNewestFirst(History(txns, accountId));
    assert forall t :: t in r <==> t in multiset(r);
    r
  }

  /**
   * `SELECT t.* FROM Transactions t JOIN Accounts a ON t.account_id = a.id
   *  WHERE a.user_id = ? ORDER BY t.created_at DESC`
   */
  function FindByUserId(accounts: map<int, Account>, txns: seq<Txn>, userId: int): (r: seq<Txn>)
    ensures NewestFirst(r)
    ensures multiset(r) == multiset(TxnsOf(txns, AccountModel.OwnedIds(accounts, userId)))
    ensures forall t :: t in r <==> t in txns && t.accountId in accounts && accounts[t.accountId].userId == userId
  {
    var r := SortNewestFirst(TxnsOf(txns, AccountModel.OwnedIds(accounts, userId)));
    assert forall t :: t in r <==> t in multiset(r);
    r
  }
}
