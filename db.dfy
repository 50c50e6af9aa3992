/**
 * The relational store the models share: the Users, Accounts and
 * Transactions tables, updated in place.
 */
module Db {
  import opened Domain
  import opened Ledger

  /** No two user rows share an id. */
  predicate UniqueUserIds(users: seq<User>) {
    forall i, j :: 0 <= i < j < |users| ==> users[i].id != users[j].id
  }

  /** No access token is held by two user rows. */
  predicate UniqueTokens(users: seq<User>) {
    forall i, j :: 0 <= i < j < |users| && users[i].accessToken.Some? ==> users[i].accessToken != users[j].accessToken
  }

  /** A statement the store may fail on; a failure surfaces as a thrown error. */
  datatype Step = OwnerLookup | Connect | Begin | Lock | Update | Insert | Commit
  {
    /** The steps of a ledger operation that come before its row is read. */
    predicate BeforeRead() {
      this == Connect || this == Begin || this == Lock
    }

    /** The steps of a ledger operation that write. */
    predicate Write() {
      this == Update || this == Insert || this == Commit
    }
  }

  /** Where, if anywhere, the store fails during one request. */
  datatype Fault = NoFault | FailAt(step: Step)

  class Database {
    var users: seq<User>
    var accounts: map<int, Account>
    var txns: seq<Txn>

    ghost predicate Valid()
      reads this
    {
      UniqueUserIds(users) && UniqueTokens(users) && LedgerWellFormed(accounts, txns)
    }

    constructor (users: seq<User>, accounts: map<int, Account>, txns: seq<Txn>)
      requires UniqueUserIds(users) && UniqueTokens(users) && LedgerWellFormed(accounts, txns)
      ensures Valid()
      ensures this.users == users && this.accounts == accounts && this.txns == txns
    {
      this.users := users;
      this.accounts := accounts;
      this.txns := txns;
    }
  }
}
