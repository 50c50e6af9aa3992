/**
 * The transaction ledger: what a committed deposit or withdrawal writes
 * (one balance update and one appended Transactions row), the per-account
 * history, and the consistency invariants that tie the history to the
 * stored balance.
 */
module Ledger {
  import opened Domain

  /** The balance a transaction of this kind leaves behind. */
  function Apply(kind: TxnKind, balance: int, amount: int): int {
    match kind
    case Deposit => balance + amount
    case Withdrawal => balance - amount
  }

  /** A row is internally consistent: balance_after = balance_before +/- amount. */
  predicate Consistent(t: Txn) {
    t.balanceAfter == Apply(t.kind, t.balanceBefore, t.amount)
  }

  /** The rows of `txns` that belong to one of the accounts in `ids`, in table order. */
  function TxnsOf(txns: seq<Txn>, ids: set<int>): (r: seq<Txn>)
    ensures |r| <= |txns|
    ensures forall t :: t in r <==> t in txns && t.accountId in ids
    ensures ids == {} ==> r == []
  {
    if txns == [] then []
    else
      var last := txns[|txns| - 1];
      TxnsOf(txns[..|txns| - 1], ids) + (if last.accountId in ids then [last] else [])
  }

  /** The ledger of one account: its rows in insertion order. */
  function History(txns: seq<Txn>, id: int): seq<Txn> {
    TxnsOf(txns, {id})
  }

  /** Appending a row extends exactly the histories that select it. */
  lemma TxnsOfAppend(txns: seq<Txn>, t: Txn, ids: set<int>)
    ensures TxnsOf(txns + [t], ids) == TxnsOf(txns, ids) + (if t.accountId in ids then [t] else [])
  {
    assert (txns + [t])[..|txns|] == txns;
  }

  /** Selecting two disjoint sets of accounts selects the two histories side by side. */
  lemma {:induction false} TxnsOfUnion(txns: seq<Txn>, ids: set<int>, k: int)
    requires k !in ids
    ensures multiset(TxnsOf(txns, ids + {k})) == multiset(TxnsOf(txns, ids)) + multiset(History(txns, k))
  {
    if txns != [] {
      TxnsOfUnion(txns[..|txns| - 1], ids, k);
    }
  }

  /** Consecutive rows of a history hand the balance on: each starts where the previous ended. */
  predicate Chained(h: seq<Txn>) {
    forall i :: 0 <= i < |h| - 1 ==> h[i + 1].balanceBefore == h[i].balanceAfter
  }

  /**
   * Ledger consistency for one account: its history is chained and the last
   * row ends at the account's current balance.
   */
  predicate AccountReplays(accounts: map<int, Account>, txns: seq<Txn>, id: int)
    requires id in accounts
  {
    var h := History(txns, id);
    Chained(h) && (h != [] ==> h[|h| - 1].balanceAfter == accounts[id].balance)
  }

  predicate Replays(accounts: map<int, Account>, txns: seq<Txn>) {
    forall id :: id in accounts ==> AccountReplays(accounts, txns, id)
  }

  /** Folding a history over a starting balance. */
  function Replay(start: int, h: seq<Txn>): int
    decreases |h|
  {
    if h == [] then start else Replay(Apply(h[0].kind, start, h[0].amount), h[1..])
  }

  /** A chained history of consistent rows replays from its first balance_before to its last balance_after. */
  lemma {:induction false} ReplayChain(h: seq<Txn>)
    requires h != [] && Chained(h)
    requires forall t :: t in h ==> Consistent(t)
    ensures Replay(h[0].balanceBefore, h) == h[|h| - 1].balanceAfter
  {
    assert Consistent(h[0]);
    if |h| > 1 {
      var tail := h[1..];
      assert Chained(tail) by {
        forall i | 0 <= i < |tail| - 1 ensures tail[i + 1].balanceBefore == tail[i].balanceAfter {
          assert tail[i + 1] == h[i + 2] && tail[i] == h[i + 1];
        }
      }
      assert h[1].balanceBefore == h[0].balanceAfter;
      ReplayChain(tail);
    }
  }

  /**
   * Replaying an account's ledger, in insertion order, from its first
   * balance_before reproduces the stored balance.
   */
  lemma LedgerReplay(accounts: map<int, Account>, txns: seq<Txn>, id: int)
    requires Replays(accounts, txns)
    requires forall t :: t in txns ==> Consistent(t)
    requires id in accounts && History(txns, id) != []
    ensures var h := History(txns, id); Replay(h[0].balanceBefore, h) == accounts[id].balance
  {
    assert AccountReplays(accounts, txns, id);
    ReplayChain(History(txns, id));
  }

  /** Id the store gives the next Transactions row (auto-increment): one above the largest id in use. */
  function NextTxnId(txns: seq<Txn>): (r: int)
    ensures forall t :: t in txns ==> t.id < r
  {
    if txns == [] then 1
    else
      var last := txns[|txns| - 1];
      var next := NextTxnId(txns[..|txns| - 1]);
      assert txns == txns[..|txns| - 1] + [last];
      if last.id < next then next else last.id + 1
  }

  /** `UPDATE Accounts SET balance = ? WHERE id = ?` */
  function Posted(accounts: map<int, Account>, id: int, balance: int): (r: map<int, Account>)
    requires id in accounts
    ensures r.Keys == accounts.Keys
    ensures r[id] == accounts[id].(balance := balance)
    ensures forall k :: k in accounts && k != id ==> r[k] == accounts[k]
  {
    accounts[id := accounts[id].(balance := balance)]
  }

  /** `INSERT INTO Transactions (account_id, type, amount, balance_before, balance_after)` */
  function Recorded(txns: seq<Txn>, id: int, kind: TxnKind, amount: int, before: int, after: int, now: int)
    : (r: seq<Txn>)
    ensures |r| == |txns| + 1 && r[..|txns|] == txns
    ensures var t := r[|txns|];
            t.accountId == id && t.kind == kind && t.amount == amount &&
            t.balanceBefore == before && t.balanceAfter == after && t.createdAt == now
    ensures forall t :: t in txns ==> t.id < r[|txns|].id
  {
    txns + [Txn(NextTxnId(txns), id, kind, amount, before, after, now)]
  }

  /**
   * Writing the new balance of one account and appending the matching row
   * keeps every account's ledger consistent with its balance.
   */
  lemma PostingPreservesReplays(accounts: map<int, Account>, txns: seq<Txn>, id: int, kind: TxnKind, amount: int, now: int)
    requires id in accounts && Replays(accounts, txns)
    ensures var before := accounts[id].balance;
            var after := Apply(kind, before, amount);
            Replays(Posted(accounts, id, after), Recorded(txns, id, kind, amount, before, after, now))
  {
    var before := accounts[id].balance;
    var after := Apply(kind, before, amount);
    var accounts' := Posted(accounts, id, after);
    var t := Txn(NextTxnId(txns), id, kind, amount, before, after, now);
    var txns' := Recorded(txns, id, kind, amount, before, after, now);
    forall k | k in accounts' ensures AccountReplays(accounts', txns', k) {
      assert AccountReplays(accounts, txns, k);
      TxnsOfAppend(txns, t, {k});
      var h := History(txns, k);
      if k == id {
        var h' := h + [t];
        assert History(txns', k) == h';
        forall i | 0 <= i < |h'| - 1 ensures h'[i + 1].balanceBefore == h'[i].balanceAfter {
          if i < |h| - 1 {
            assert h'[i + 1] == h[i + 1] && h'[i] == h[i];
          }
        }
      } else {
        assert History(txns', k) == h;
      }
    }
  }

  /** The Accounts table is keyed by the id column. */
  predicate KeyedById(accounts: map<int, Account>) {
    forall k :: k in accounts ==> accounts[k].id == k
  }

  /** The store's referential and ledger well-formedness. */
  predicate LedgerWellFormed(accounts: map<int, Account>, txns: seq<Txn>) {
    && KeyedById(accounts)
    && (forall t :: t in txns ==> t.accountId in accounts && Consistent(t))
    && (forall i, j :: 0 <= i < j < |txns| ==> txns[i].id < txns[j].id)
  }

  /** A committed posting keeps the store well formed. */
  lemma PostingPreservesWellFormed(accounts: map<int, Account>, txns: seq<Txn>, id: int, kind: TxnKind, amount: int, now: int)
    requires id in accounts && LedgerWellFormed(accounts, txns)
    ensures var before := accounts[id].balance;
            var after := Apply(kind, before, amount);
            LedgerWellFormed(Posted(accounts, id, after), Recorded(txns, id, kind, amount, before, after, now))
  {
    var before := accounts[id].balance;
    var after := Apply(kind, before, amount);
    var txns' := Recorded(txns, id, kind, amount, before, after, now);
    forall i, j | 0 <= i < j < |txns'| ensures txns'[i].id < txns'[j].id {
      if j == |txns| {
        assert txns[i] in txns;
      }
    }
  }

  /** Every balance is non-negative. */
  predicate Solvent(accounts: map<int, Account>) {
    forall k :: k in accounts ==> accounts[k].balance >= 0
  }
}
