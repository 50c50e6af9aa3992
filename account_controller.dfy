/**
 * The account request handlers. Each runs after authentication with the
 * caller's identity (`req.user`), checks the request, applies the ownership
 * rule for customers, calls the models and maps what they return or throw
 * to a status code.
 */
module AccountController {
  import opened Domain
  import opened Ledger
  import opened Db
  import AccountModel
  import TransactionModel

  const InvalidRequest := "Valid account ID and amount are required"

  /** The `amount` field of a request body, as far as validation can tell them apart. */
  datatype AmountField = Missing | NotANumber | Number(cents: int)

  /**
   * A request passes validation unless the account id is missing or zero, or
   * the amount is missing, not a number, zero or negative.
   */
  predicate WellFormedRequest(accountId: Option<int>, amount: AmountField) {
    accountId.Some? && accountId.value != 0 && amount.Number? && amount.cents > 0
  }

  /** Some account among the user's own has the requested id. */
  predicate Owns(accounts: map<int, Account>, userId: int, accountId: int) {
    exists a :: a in AccountModel.FindByUserId(accounts, userId) && a.id == accountId
  }

  /** In a store keyed by id, owning an account id means that account exists and belongs to the user. */
  lemma OwnsIffOwner(accounts: map<int, Account>, userId: int, accountId: int)
    requires KeyedById(accounts)
    ensures Owns(accounts, userId, accountId) <==> accountId in accounts && accounts[accountId].userId == userId
  {
    if accountId in accounts && accounts[accountId].userId == userId {
      assert accounts[accountId] in AccountModel.FindByUserId(accounts, userId);
    }
  }

  /** The JSON body of a deposit or withdrawal reply. */
  datatype LedgerReply = LedgerReply(success: bool, message: AccountModel.Message, balance: int)

  /** The outcome of the checks that run before the ledger is touched. */
  datatype Screening = Refused(response: Response<LedgerReply>) | Cleared(accountId: int, amount: int)

  /**
   * Validation, then (for a customer) the ownership lookup: both run before
   * any ledger operation. `lookupFails` says whether the lookup of the
   * caller's accounts throws.
   */
  function Screen(caller: Identity, accounts: map<int, Account>, accountId: Option<int>, amount: AmountField, lookupFails: bool)
    : (r: Screening)
    ensures !WellFormedRequest(accountId, amount) ==> r == Refused(Response(400, Error(InvalidRequest)))
    ensures WellFormedRequest(accountId, amount) ==>
              (r.Cleared? <==> IsBanker(caller) || (!lookupFails && Owns(accounts, caller.id, accountId.value)))
    ensures WellFormedRequest(accountId, amount) && r.Refused? ==>
              r.response == if lookupFails then Response(500, Error(ServerError)) else Response(403, Error(AccessDenied))
    ensures r.Cleared? ==> Some(r.accountId) == accountId && amount == Number(r.amount) && r.amount > 0
  {
    if !WellFormedRequest(accountId, amount) then Refused(Response(400, Error(InvalidRequest)))
    else if IsBanker(caller) then Cleared(accountId.value, amount.cents)
    else if lookupFails then Refused(Response(500, Error(ServerError)))
    else if !Owns(accounts, caller.id, accountId.value) then Refused(Response(403, Error(AccessDenied)))
    else Cleared(accountId.value, amount.cents)
  }

  /** POST /deposit */
  method Deposit(db: Database, caller: Identity, accountId: Option<int>, amount: AmountField, now: int, fault: Fault)
    returns (resp: Response<LedgerReply>)
    requires db.Valid()
    modifies db`accounts, db`txns
    ensures db.Valid()
    ensures var s := Screen(caller, old(db.accounts), accountId, amount, fault == FailAt(OwnerLookup));
            s.Refused? ==> resp == s.response && db.accounts == old(db.accounts) && db.txns == old(db.txns)
    ensures var s := Screen(caller, old(db.accounts), accountId, amount, fault == FailAt(OwnerLookup));
            s.Cleared? && AccountModel.Thrown(fault, s.accountId in old(db.accounts), true).Some? ==>
              resp == Response(500, Error(ServerError)) && db.accounts == old(db.accounts) && db.txns == old(db.txns)
    ensures var s := Screen(caller, old(db.accounts), accountId, amount, fault == FailAt(OwnerLookup));
            s.Cleared? && AccountModel.Thrown(fault, s.accountId in old(db.accounts), true).None? ==>
              var before := old(db.accounts)[s.accountId].balance;
              var after := before + s.amount;
              && resp == Response(200, Payload(LedgerReply(true, AccountModel.Deposited(s.amount), after)))
              && db.accounts == Posted(old(db.accounts), s.accountId, after)
              && db.txns == Recorded(old(db.txns), s.accountId, TxnKind.Deposit, s.amount, before, after, now)
    ensures old(Replays(db.accounts, db.txns)) ==> Replays(db.accounts, db.txns)
    ensures old(Solvent(db.accounts)) ==> Solvent(db.accounts)
  {
    var s := Screen(caller, db.accounts, accountId, amount, fault == FailAt(OwnerLookup));
    if s.Refused? {
      return s.response;
    }
    ghost var thrown := AccountModel.Thrown(fault, s.accountId in db.accounts, true);
    var outcome := AccountModel.Deposit(db, s.accountId, s.amount, now, fault);
    match outcome
    case Threw(_) =>
      assert thrown.Some?;
      resp := Response(500, Error(ServerError));
    case Done(result) =>
      assert thrown.None?;
      resp := Response(200, Payload(LedgerReply(result.success, result.message, result.balance)));
  }

  /** POST /withdraw; insufficient funds is answered with 400 and the unchanged balance. */
  method Withdraw(db: Database, caller: Identity, accountId: Option<int>, amount: AmountField, now: int, fault: Fault)
    returns (resp: Response<LedgerReply>)
    requires db.Valid()
    modifies db`accounts, db`txns
    ensures db.Valid()
    ensures var s := Screen(caller, old(db.accounts), accountId, amount, fault == FailAt(OwnerLookup));
            s.Refused? ==> resp == s.response && db.accounts == old(db.accounts) && db.txns == old(db.txns)
    ensures var s := Screen(caller, old(db.accounts), accountId, amount, fault == FailAt(OwnerLookup));
            var found := s.Cleared? && s.accountId in old(db.accounts);
            var writes := found && s.amount <= old(db.accounts)[s.accountId].balance;
            s.Cleared? && AccountModel.Thrown(fault, found, writes).Some? ==>
              resp == Response(500, Error(ServerError)) && db.accounts == old(db.accounts) && db.txns == old(db.txns)
    ensures var s := Screen(caller, old(db.accounts), accountId, amount, fault == FailAt(OwnerLookup));
            var found := s.Cleared? && s.accountId in old(db.accounts);
            var writes := found && s.amount <= old(db.accounts)[s.accountId].balance;
            s.Cleared? && AccountModel.Thrown(fault, found, writes).None? && !writes ==>
              var before := old(db.accounts)[s.accountId].balance;
              && resp == Response(400, Payload(LedgerReply(false, AccountModel.InsufficientFunds, before)))
              && db.accounts == old(db.accounts) && db.txns == old(db.txns)
    ensures var s := Screen(caller, old(db.accounts), accountId, amount, fault == FailAt(OwnerLookup));
            var found := s.Cleared? && s.accountId in old(db.accounts);
            var writes := found && s.amount <= old(db.accounts)[s.accountId].balance;
            s.Cleared? && AccountModel.Thrown(fault, found, writes).None? && writes ==>
              var before := old(db.accounts)[s.accountId].balance;
              var after := before - s.amount;
              && resp == Response(200, Payload(LedgerReply(true, AccountModel.Withdrew(s.amount), after)))
              && db.accounts == Posted(old(db.accounts), s.accountId, after)
              && db.txns == Recorded(old(db.txns), s.accountId, Withdrawal, s.amount, before, after, now)
    ensures old(Replays(db.accounts, db.txns)) ==> Replays(db.accounts, db.txns)
    ensures old(Solvent(db.accounts)) ==> Solvent(db.accounts)
  {
    var s := Screen(caller, db.accounts, accountId, amount, fault == FailAt(OwnerLookup));
    if s.Refused? {
      return s.response;
    }
    var outcome := AccountModel.Withdraw(db, s.accountId, s.amount, now, fault);
    match outcome
    case Threw(_) =>
      resp := Response(500, Error(ServerError));
    case Done(result) =>
      if !result.success {
        resp := Response(400, Payload(LedgerReply(false, result.message, result.balance)));
      } else {
        resp := Response(200, Payload(LedgerReply(result.success, result.message, result.balance)));
      }
  }

  /** GET / : the caller's own accounts. */
  function GetUserAccounts(accounts: map<int, Account>, caller: Identity, dbError: bool): (r: Response<set<Account>>)
    ensures dbError <==> r == Response(500, Error(ServerError))
    ensures !dbError ==> r.status == 200 && r.body.Payload?
    ensures r.body.Payload? ==> forall a :: a in r.body.value <==> a in accounts.Values && a.userId == caller.id
  {
    if dbError then Response(500, Error(ServerError))
    else Response(200, Payload(AccountModel.FindByUserId(accounts, caller.id)))
  }

  /** GET /:accountId/transactions: a customer may only read the history of an account of their own. */
  function GetAccountTransactions(accounts: map<int, Account>, txns: seq<Txn>, caller: Identity, accountId: int, dbError: bool)
    : (r: Response<seq<Txn>>)
    ensures dbError ==> r == Response(500, Error(ServerError))
    ensures !dbError && !IsBanker(caller) && !Owns(accounts, caller.id, accountId) ==> r == Response(403, Error(AccessDenied))
    ensures r.status == 200 <==> !dbError && (IsBanker(caller) || Owns(accounts, caller.id, accountId))
    ensures r.status == 200 ==>
              && r.body.Payload?
              && TransactionModel.NewestFirst(r.body.value)
              && (forall t :: t in r.body.value <==> t in txns && t.accountId == accountId)
    ensures r.status == 200 && !IsBanker(caller) && KeyedById(accounts) ==>
              accountId in accounts && accounts[accountId].userId == caller.id
  {
    if dbError then Response(500, Error(ServerError))
    else if !IsBanker(caller) && !Owns(accounts, caller.id, accountId) then Response(403, Error(AccessDenied))
    else Response(200, Payload(TransactionModel.FindByAccountId(txns, accountId)))
  }

  /** GET /transactions: every transaction on the caller's own accounts, newest first. */
  function GetAllTransactions(accounts: map<int, Account>, txns: seq<Txn>, caller: Identity, dbError: bool)
    : (r: Response<seq<Txn>>)
    ensures dbError <==> r == Response(500, Error(ServerError))
    ensures !dbError ==> r.status == 200 && r.body.Payload?
    ensures r.body.Payload? ==>
              && TransactionModel.NewestFirst(r.body.value)
              && forall t :: t in r.body.value <==>
                   t in txns && t.accountId in accounts && accounts[t.accountId].userId == caller.id
  {
    if dbError then Response(500, Error(ServerError))
    else Response(200, Payload(TransactionModel.FindByUserId(accounts, txns, caller.id)))
  }

  /** GET /all: bankers only; every account with its owner's username and full name. */
  function GetAllAccounts(users: seq<User>, accounts: map<int, Account>, caller: Identity, dbError: bool)
    : (r: Response<set<AccountModel.AccountWithOwner>>)
    ensures !IsBanker(caller) ==> r == Response(403, Error(AccessDenied))
    ensures IsBanker(caller) && dbError ==> r == Response(500, Error(ServerError))
    ensures r.status == 200 <==> IsBanker(caller) && !dbError
    ensures r.status == 200 ==> r.body == Payload(AccountModel.GetAllAccounts(users, accounts))
  {
    if !IsBanker(caller) then Response(403, Error(AccessDenied))
    else if dbError then Response(500, Error(ServerError))
    else Response(200, Payload(AccountModel.GetAllAccounts(users, accounts)))
  }
}
