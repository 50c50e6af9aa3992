/**
 * The Account model: lookups over the Accounts table and the two ledger
 * operations, each one read-modify-write-append inside a store transaction
 * that a thrown error rolls back.
 */
module AccountModel {
  import opened Domain
  import opened Ledger
  import opened Db

  /** `SELECT * FROM Accounts WHERE id = ?` */
  function FindById(accounts: map<int, Account>, id: int): (r: Option<Account>)
    ensures r.Some? <==> id in accounts
    ensures r.Some? ==> r.value == accounts[id]
    ensures KeyedById(accounts) && r.Some? ==> r.value.id == id
  {
    if id in accounts then Some(accounts[id]) else None
  }

  /** Ids of the accounts a user owns. */
  function OwnedIds(accounts: map<int, Account>, userId: int): set<int> {
    set k | k in accounts && accounts[k].userId == userId
  }

  /** `SELECT * FROM Accounts WHERE user_id = ?` (the rows come in no particular order) */
  function FindByUserId(accounts: map<int, Account>, userId: int): (r: set<Account>)
    ensures forall a :: a in r ==> a in accounts.Values && a.userId == userId
    ensures forall k :: k in accounts && accounts[k].userId == userId ==> accounts[k] in r
  {
    set k | k in OwnedIds(accounts, userId) :: accounts[k]
  }

  /** The ids of a set of account rows. */
  function IdsOf(rows: set<Account>): set<int> {
    set a | a in rows :: a.id
  }

  /**
   * In a store keyed by id, the accounts found for a user are exactly those
   * whose ids the user owns, and no two of them share an id.
   */
  lemma FindByUserIdIds(accounts: map<int, Account>, userId: int)
    requires KeyedById(accounts)
    ensures IdsOf(FindByUserId(accounts, userId)) == OwnedIds(accounts, userId)
    ensures forall a, b :: a in FindByUserId(accounts, userId) && b in FindByUserId(accounts, userId) && a.id == b.id ==> a == b
  {
    var found := FindByUserId(accounts, userId);
    forall k | k in OwnedIds(accounts, userId) ensures k in IdsOf(found) {
      assert accounts[k] in found;
    }
    forall a, b | a in found && b in found && a.id == b.id ensures a == b {
      var ka :| ka in accounts && accounts[ka] == a;
      var kb :| kb in accounts && accounts[kb] == b;
    }
  }

  /** An Accounts row joined with its owner's username and full name. */
  datatype AccountWithOwner = AccountWithOwner(account: Account, username: string, fullName: string)

  /** `SELECT a.*, u.username, u.full_name FROM Accounts a JOIN Users u ON a.user_id = u.id` */
  function GetAllAccounts(users: seq<User>, accounts: map<int, Account>): (r: set<AccountWithOwner>)
    ensures forall row :: row in r <==>
              && row.account in accounts.Values
              && exists u :: u in users && u.id == row.account.userId &&
                             row.username == u.username && row.fullName == u.fullName
  {
    set a, u | a in accounts.Values && u in users && u.id == a.userId :: AccountWithOwner(a, u.username, u.fullName)
  }

  /**
   * With unique user ids, every account whose owner exists is listed, and
   * every row listing it carries that owner's username and full name.
   */
  lemma GetAllAccountsJoinsOwner(users: seq<User>, accounts: map<int, Account>, k: int, i: nat)
    requires UniqueUserIds(users)
    requires k in accounts && i < |users| && users[i].id == accounts[k].userId
    ensures AccountWithOwner(accounts[k], users[i].username, users[i].fullName) in GetAllAccounts(users, accounts)
    ensures forall row :: row in GetAllAccounts(users, accounts) && row.account == accounts[k] ==>
              row.username == users[i].username && row.fullName == users[i].fullName
  {
    assert accounts[k] in accounts.Values;
    assert users[i] in users;
    forall row | row in GetAllAccounts(users, accounts) && row.account == accounts[k]
      ensures row.username == users[i].username && row.fullName == users[i].fullName
    {
      var a, u :| a in accounts.Values && u in users && u.id == a.userId && row == AccountWithOwner(a, u.username, u.fullName);
      var j :| 0 <= j < |users| && users[j] == u;
      assert j == i;
    }
  }

  /** `UPDATE Accounts SET balance = ? WHERE id = ?` followed by a lookup of the row. No ledger row is written. */
  method UpdateBalance(db: Database, id: int, newBalance: int) returns (r: Option<Account>)
    requires db.Valid()
    modifies db`accounts
    ensures db.Valid()
    ensures id in old(db.accounts) ==> db.accounts == Posted(old(db.accounts), id, newBalance)
    ensures id !in old(db.accounts) ==> db.accounts == old(db.accounts)
    ensures r == FindById(db.accounts, id)
  {
    if id in db.accounts {
      db.accounts := Posted(db.accounts, id, newBalance);
    }
    r := FindById(db.accounts, id);
  }

  /** What a ledger operation reports to its caller. */
  datatype Message = Deposited(amount: int) | Withdrew(amount: int) | InsufficientFunds
  datatype LedgerResult = LedgerResult(success: bool, balance: int, message: Message)

  /** The errors a ledger operation throws. */
  datatype StoreError = AccountNotFound | QueryFailed(step: Step)

  /** A ledger operation either returns a result or throws. */
  datatype Outcome = Done(result: LedgerResult) | Threw(error: StoreError)

  /**
   * The error a ledger operation throws: a failing connection, transaction
   * start or row lock; then a missing account; then, only for an operation
   * that goes on to write, a failing update, insert or commit.
   */
  function Thrown(fault: Fault, found: bool, writes: bool): (e: Option<StoreError>)
    ensures e.None? ==> found
    ensures !found && !(fault.FailAt? && fault.step.BeforeRead()) ==> e == Some(AccountNotFound)
    ensures fault == NoFault ==> e.None? == found
    ensures e.Some? && e.value.QueryFailed? ==> fault == FailAt(e.value.step)
    ensures fault.FailAt? && fault.step.BeforeRead() ==> e == Some(QueryFailed(fault.step))
    ensures found && writes && fault.FailAt? && fault.step.Write() ==> e == Some(QueryFailed(fault.step))
    ensures found && !(fault.FailAt? && fault.step.BeforeRead()) && !(writes && fault.FailAt? && fault.step.Write()) ==>
              e.None?
  {
    if fault.FailAt? && fault.step.BeforeRead() then Some(QueryFailed(fault.step))
    else if !found then Some(AccountNotFound)
    else if writes && fault.FailAt? && fault.step.Write() then Some(QueryFailed(fault.step))
    else None
  }

  /**
   * The write phase both operations share, inside the store transaction:
   * write the new balance of row `id`, append the matching ledger row,
   * commit. A failure at any of the three rolls back to the state saved when
   * the transaction began.
   */
  method Post(db: Database, id: int, kind: TxnKind, amount: int, now: int, fault: Fault) returns (e: Option<StoreError>)
    requires db.Valid() && id in db.accounts
    modifies db`accounts, db`txns
    ensures db.Valid()
    ensures e.Some? <==> fault.FailAt? && fault.step.Write()
    ensures e.Some? ==> e.value == QueryFailed(fault.step) && db.accounts == old(db.accounts) && db.txns == old(db.txns)
    ensures e.None? ==>
              var before := old(db.accounts)[id].balance;
              var after := Apply(kind, before, amount);
              && db.accounts == Posted(old(db.accounts), id, after)
              && db.txns == Recorded(old(db.txns), id, kind, amount, before, after, now)
    ensures old(Replays(db.accounts, db.txns)) ==> Replays(db.accounts, db.txns)
  {
    var savedAccounts, savedTxns := db.accounts, db.txns;
    var before := db.accounts[id].balance;
    var after := Apply(kind, before, amount);
    if fault == FailAt(Update) {
      db.accounts, db.txns := savedAccounts, savedTxns;
      return Some(QueryFailed(Update));
    }
    db.accounts := Posted(db.accounts, id, after);
    if fault == FailAt(Insert) {
      db.accounts, db.txns := savedAccounts, savedTxns;
      return Some(QueryFailed(Insert));
    }
    db.txns := Recorded(db.txns, id, kind, amount, before, after, now);
    if fault == FailAt(Commit) {
      db.accounts, db.txns := savedAccounts, savedTxns;
      return Some(QueryFailed(Commit));
    }
    PostingPreservesWellFormed(savedAccounts, savedTxns, id, kind, amount, now);
    if Replays(savedAccounts, savedTxns) {
      PostingPreservesReplays(savedAccounts, savedTxns, id, kind, amount, now);
    }
    e := None;
  }

  /**
   * Deposit `amount` into account `id`: lock and read the row, write
   * balance + amount, append one "deposit" row, commit. Any thrown error
   * rolls the whole change back.
   */
  method Deposit(db: Database, id: int, amount: int, now: int, fault: Fault) returns (r: Outcome)
    requires db.Valid()
    modifies db`accounts, db`txns
    ensures db.Valid()
    ensures Thrown(fault, id in old(db.accounts), true).Some? ==>
              && r == Threw(Thrown(fault, id in old(db.accounts), true).value)
              && db.accounts == old(db.accounts) && db.txns == old(db.txns)
    ensures Thrown(fault, id in old(db.accounts), true).None? ==>
              var before := old(db.accounts)[id].balance;
              && r == Done(LedgerResult(true, before + amount, Deposited(amount)))
              && db.accounts == Posted(old(db.accounts), id, before + amount)
              && db.txns == Recorded(old(db.txns), id, TxnKind.Deposit, amount, before, before + amount, now)
    ensures old(Replays(db.accounts, db.txns)) ==> Replays(db.accounts, db.txns)
    ensures amount >= 0 && old(Solvent(db.accounts)) ==> Solvent(db.accounts)
  {
    if fault == FailAt(Connect) {
      return Threw(QueryFailed(Connect));
    }
    // beginTransaction; nothing is written before the row is locked and read
    if fault == FailAt(Begin) || fault == FailAt(Lock) {
      return Threw(QueryFailed(fault.step));
    }
    if id !in db.accounts {
      return Threw(AccountNotFound);
    }
    var before := db.accounts[id].balance;
    var e := Post(db, id, TxnKind.Deposit, amount, now, fault);
    if e.Some? {
      return Threw(e.value);
    }
    r := Done(LedgerResult(true, before + amount, Deposited(amount)));
  }

  /**
   * Withdraw `amount` from account `id`. A balance below the amount is a
   * business outcome (success false, balance unchanged), not an error; an
   * amount equal to the balance is allowed. Otherwise as Deposit, with
   * subtraction and a "withdrawal" row.
   */
  method Withdraw(db: Database, id: int, amount: int, now: int, fault: Fault) returns (r: Outcome)
    requires db.Valid()
    modifies db`accounts, db`txns
    ensures db.Valid()
    ensures var found := id in old(db.accounts);
            var writes := found && amount <= old(db.accounts)[id].balance;
            Thrown(fault, found, writes).Some? ==>
              && r == Threw(Thrown(fault, found, writes).value)
              && db.accounts == old(db.accounts) && db.txns == old(db.txns)
    ensures var found := id in old(db.accounts);
            var writes := found && amount <= old(db.accounts)[id].balance;
            Thrown(fault, found, writes).None? && !writes ==>
              && r == Done(LedgerResult(false, old(db.accounts)[id].balance, InsufficientFunds))
              && db.accounts == old(db.accounts) && db.txns == old(db.txns)
    ensures var found := id in old(db.accounts);
            var writes := found && amount <= old(db.accounts)[id].balance;
            Thrown(fault, found, writes).None? && writes ==>
              var before := old(db.accounts)[id].balance;
              && r == Done(LedgerResult(true, before - amount, Withdrew(amount)))
              && db.accounts == Posted(old(db.accounts), id, before - amount)
              && db.txns == Recorded(old(db.txns), id, Withdrawal, amount, before, before - amount, now)
    ensures old(Replays(db.accounts, db.txns)) ==> Replays(db.accounts, db.txns)
    ensures old(Solvent(db.accounts)) ==> Solvent(db.accounts)
  {
    if fault == FailAt(Connect) {
      return Threw(QueryFailed(Connect));
    }
    if fault == FailAt(Begin) || fault == FailAt(Lock) {
      return Threw(QueryFailed(fault.step));
    }
    if id !in db.accounts {
      return Threw(AccountNotFound);
    }
    var before := db.accounts[id].balance;
    if before < amount {
      // returned without writing: the store is left as it was
      return Done(LedgerResult(false, before, InsufficientFunds));
    }
    var e := Post(db, id, Withdrawal, amount, now, fault);
    if e.Some? {
      return Threw(e.value);
    }
    r := Done(LedgerResult(true, before - amount, Withdrew(amount)));
  }
}
