# Banking server: ledger, access gate and read surface

A Dafny model of the money-movement core of a small banking server.
Customers log in, deposit and withdraw on their own accounts, and read their
transaction history. Bankers can see every customer, every account and every
history. The model covers:

- **The store** (`Db.Database`). It is a class with three tables, updated in place:
  - `users`, a sequence in table order, so that a query's "first row" is defined;
  - `accounts`, a map keyed by account id;
  - `transactions`, an append-only sequence in insertion order.

  `Valid()` is kept by every method. It says that user ids and tokens are
  unique, that accounts are keyed by their id, and that every ledger row
  refers to an existing account. It also says that each row's
  `balance_after` is its `balance_before` plus or minus its amount, and that
  row ids increase.
- **The ledger engine** (`AccountModel.Deposit`, `AccountModel.Withdraw`).
  Each one locks and reads one account row, writes the new balance, appends
  one transaction row and commits. A failure at any step, modelled by a
  `Fault` argument naming the failing statement, rolls the store back to
  the state it had when the store transaction began.
  - Insufficient funds is a normal result, not an error.
  - The ledger-consistency invariant `Replays` is preserved. It says that
    each account's history is chained and ends at the stored balance.
  - `LedgerReplay` shows that folding a history reproduces the balance.
- **The access gate**:
  - the token middleware (`Auth.Authenticate`);
  - login, with one active token per user (`UserModel.Login`). A fresh token
    replaces the old one; the old token stops verifying and no other
    session changes;
  - the customer-ownership and banker-role checks of the handlers.
- **The read surface**:
  - the model queries, as filters over the tables, with
    `ORDER BY created_at DESC` as a sort (newest first, a permutation);
  - the request handlers that map results and thrown errors to status codes;
  - the banker's user-details view, which gathers each account's history in
    a loop and sorts the array in place.

Money is an exact integer number of cents. The password hash check
(bcrypt) is a function parameter `passwordMatches`. The token generator
(uuid v4) is a parameter `freshToken`, which callers must supply as a
36-character string no user holds. Clocks are a `now` parameter. Store
failures in read-only handlers are a `dbError` flag.

Behaviour worth noting:
- an unknown account id in deposit or withdraw is thrown, and the handler
  answers it with 500;
- the insufficient-funds path returns without an explicit commit or
  rollback, and writes nothing;
- replay starts from a history's first `balance_before`, since accounts may
  be created with a non-zero balance.

## Model

| member | source | states |
|---|---|---|
| Domain.FirstIndex | server/models/userModel.js:27 | the row a query returns as `rows[0]`: the first row satisfying the condition, and None exactly when no row does |
| Ledger.TxnsOf | server/models/transactionModel.js:35-44 | the transactions whose account is in a given set: a row is selected iff its account id is in the set |
| Ledger.TxnsOfUnion | server/controllers/userController.js:81-85 | selecting one more account adds exactly that account's history (as a multiset) |
| Ledger.Posted | server/models/accountModel.js:82-85 | the balance update gives row `id` the new balance, keeps its other columns and the same account ids, and leaves every other row unchanged |
| Ledger.NextTxnId | server/models/accountModel.js:88-91 | the auto-increment id of a new row is above every id in use |
| Ledger.Recorded | server/models/accountModel.js:88-91 | the insert keeps the existing rows as a prefix and adds one row with the given account, type, amount, before and after balances and time, and an id above every existing id |
| Ledger.ReplayChain | server/models/accountModel.js:88-91 | a chained history of consistent rows folds from its first balance_before to its last balance_after |
| Ledger.LedgerReplay | server/models/accountModel.js:77-93 | replaying an account's ledger from its first balance_before yields the stored balance |
| Ledger.PostingPreservesReplays | server/models/accountModel.js:77-93 | a committed update plus its appended row keep every account's history chained and ending at its balance |
| Ledger.PostingPreservesWellFormed | server/models/accountModel.js:82-93 | a committed posting keeps accounts keyed by id, every row consistent and referring to an existing account, and row ids increasing |
| AccountModel.FindById | server/models/accountModel.js:5-15 | Some exactly when an account with that id exists, and then it is that stored row, carrying that id |
| AccountModel.FindByUserId | server/models/accountModel.js:18-29 | every returned account belongs to the user and every account of the user is returned |
| AccountModel.FindByUserIdIds | server/models/accountModel.js:18-29 | the ids of the returned accounts are exactly the user's account ids, and no two returned rows share an id |
| AccountModel.GetAllAccounts | server/models/accountModel.js:32-44 | the inner join: a row is listed iff its account exists and some user with the account's user_id supplies its username and full name, so accounts without an owner are dropped |
| AccountModel.GetAllAccountsJoinsOwner | server/models/accountModel.js:32-44 | each account with an existing owner is listed with that owner's username and full name, and only with those |
| AccountModel.UpdateBalance | server/models/accountModel.js:47-58 | sets the balance of an existing row, changes nothing else (no ledger row) and returns the re-read row |
| AccountModel.Thrown | server/models/accountModel.js:62-103 | which error is thrown: a failing connect/begin/lock throws that step whatever the account; otherwise a missing account throws "Account not found"; otherwise a failing update/insert/commit throws that step when the operation writes; otherwise nothing is thrown |
| AccountModel.Post | server/models/accountModel.js:81-103 | update, insert and commit; a failure at any of them restores the saved state and is rethrown, otherwise the new balance and exactly one consistent row are written |
| AccountModel.Deposit | server/models/accountModel.js:61-107 | on success the balance becomes before + amount, exactly one deposit row (before, after) is appended and the result is success with the new balance; any throw leaves the store unchanged; ledger consistency and non-negative balances are kept |
| AccountModel.Withdraw | server/models/accountModel.js:110-166 | a balance below the amount gives success false with the unchanged balance and no write; an amount up to the balance (equality included) subtracts and appends one withdrawal row; throws roll back; balances stay non-negative |
| TransactionModel.Insert | server/models/transactionModel.js:22 | inserting into a newest-first sequence keeps it newest first and adds exactly the one row |
| TransactionModel.PrependKeepsOrder | server/models/transactionModel.js:22 | a row no older than the head can go in front of a newest-first sequence |
| TransactionModel.HeadNoOlderThanRest | server/models/transactionModel.js:22 | inserting an older row into the tail keeps the head no older than the new tail's first row |
| TransactionModel.SortNewestFirst | server/models/transactionModel.js:22 | the result is newest first and a permutation of the input |
| TransactionModel.FindById | server/models/transactionModel.js:5-16 | the row with that id, and None exactly when no row has it |
| TransactionModel.FindByAccountId | server/models/transactionModel.js:19-30 | exactly the rows of that account, newest first, a permutation of its history |
| TransactionModel.FindByUserId | server/models/transactionModel.js:33-50 | exactly the rows whose account exists and belongs to the user, newest first |
| UserModel.FindById | server/models/userModel.js:7-18 | the profile without password of a user with that id, None exactly when no user has it |
| UserModel.FindByCredentials | server/models/userModel.js:21-32 | the first row whose username or email equals the key, None exactly when none does |
| UserModel.VerifyToken | server/models/userModel.js:81-93 | the identity of a user whose stored token equals the given one exactly, None exactly when none does |
| UserModel.GetAllUsers | server/models/userModel.js:96-106 | exactly the identities of the customer rows, and never a banker |
| UserModel.SetToken | server/models/userModel.js:60-64 | the rows with that id get the new token and keep their other columns; every other row is unchanged |
| UserModel.Accepted | server/models/userModel.js:39-55 | a login is refused exactly when no row matches the key or the password does not match that row's hash |
| UserModel.Login | server/models/userModel.js:35-78 | a refusal returns null and changes nothing; otherwise the matched row gets the fresh token and the profile with that token and no password is returned |
| UserModel.SetTokenKeepsUnique | server/models/userModel.js:58-64 | storing a fresh token keeps user ids and tokens unique |
| UserModel.NewTokenVerifies | server/models/userModel.js:58-64 | after login the new token resolves to the user who logged in |
| UserModel.OldTokenRevoked | server/models/userModel.js:60-64 | after login the user's previous token resolves to nobody |
| UserModel.OtherSessionsKept | server/models/userModel.js:60-64 | after login every other token resolves as before |
| Domain.IsBanker | server/controllers/userController.js:48 | the role gate of the banker-only handlers: the caller's role is banker (no ensures; it is used by the handlers' contracts) |
| Auth.Authenticate | server/middleware/auth.js:3-26 | missing or empty header gives 401 "No token…", a failing lookup 500, an unknown token 401 "Token is not valid", a known token passes with that user's identity |
| Auth.LoginSwitchesSession | server/middleware/auth.js:12-17 | after login the gate lets the new token through as the user and turns the user's old token away with 401 |
| AccountController.WellFormedRequest | server/controllers/accountController.js:90 | the request validation: an account id that is present and non-zero and an amount that is a number above zero (no ensures; `Screen` states its effect) |
| AccountController.Owns | server/controllers/accountController.js:100-102 | the `accounts.some(...)` check: one of the caller's accounts has the requested id (no ensures; `OwnsIffOwner` characterises it) |
| AccountController.OwnsIffOwner | server/controllers/accountController.js:97-102 | the ownership check succeeds exactly when the account exists and belongs to the caller |
| AccountController.Screen | server/controllers/accountController.js:88-114 | an invalid id or amount gives 400 before anything else; a banker is cleared for any account; a customer is cleared exactly for an owned account, else 403, or 500 when the lookup throws |
| AccountController.Deposit | server/controllers/accountController.js:86-127 | a refusal changes nothing; any thrown error, "Account not found" included, becomes 500 with the store unchanged; success is 200 with the new balance and exactly the posting |
| AccountController.Withdraw | server/controllers/accountController.js:130-179 | as Deposit, and insufficient funds is 400 with success false and the unchanged balance, with the store unchanged |
| AccountController.GetUserAccounts | server/controllers/accountController.js:5-18 | 500 exactly on a store error, otherwise exactly the caller's accounts |
| AccountController.GetAccountTransactions | server/controllers/accountController.js:21-48 | 200 exactly for a banker or the account's owner, with exactly that account's rows newest first; a customer asking for another's account gets 403 |
| AccountController.GetAllTransactions | server/controllers/accountController.js:51-64 | 500 exactly on a store error, otherwise exactly the rows of the caller's own accounts, newest first |
| AccountController.GetAllAccounts | server/controllers/accountController.js:67-83 | 403 for any non-banker, 500 on a store error, else the joined account list |
| UserController.Login | server/controllers/userController.js:6-30 | missing username or password gives 400 without touching the store; a refused login 401; a store error 500; otherwise 200 with the profile carrying the fresh token |
| UserController.GetProfile | server/controllers/userController.js:33-43 | 200 with the authenticated identity unchanged |
| UserController.GetAllUsers | server/controllers/userController.js:46-62 | 403 for any non-banker, 500 on a store error, else exactly the customers |
| UserController.Swap | server/controllers/userController.js:88-90 | exchanges two elements and keeps the multiset |
| UserController.InsertLeft | server/controllers/userController.js:88-90 | one insertion pass extends the newest-first prefix by one element, permuting only that prefix |
| UserController.SortNewestFirstInPlace | server/controllers/userController.js:88-90 | the array ends newest first and is a permutation of its old contents |
| UserController.GatherTransactions | server/controllers/userController.js:81-85 | the concatenated per-account histories hold exactly the rows of those accounts (as a multiset) |
| UserController.GetUserDetails | server/controllers/userController.js:65-102 | 403 for any non-banker, 500 on a store error, 404 for an unknown user; otherwise the user, exactly their accounts, and their transactions newest first as a permutation of the joined query's result |

## Left out

- Concurrency: the row lock taken by `SELECT … FOR UPDATE` and the connection pool are not modelled. Each deposit or withdrawal is one sequential, atomic step.
- AccountModel.Withdraw: the insufficient-funds return leaves the store transaction open, without commit or rollback, before the connection is released. The model records only that nothing is written.
- Floating point: the source computes balances with `parseFloat`. The model uses exact integer cents and does not reproduce binary rounding.
- AccountController.Screen: the request's amount arrives already classified as missing, not a number, or a number of cents. JavaScript's `isNaN` coercions (such as a blank string counting as 0) and string-versus-number account ids (`toString()` comparison) are not modelled.
- AccountController.GetAccountTransactions: the account id is an integer. The handler compares each owned id's string form with the raw path parameter, so a customer asking for `/007/transactions` is refused with 403 while a banker gets account 7's rows; the model does not capture this.
- UserModel.FindByCredentials, UserModel.VerifyToken: usernames, emails and tokens are matched by exact, case-sensitive equality. The store's `=` follows the column collation, which may compare case-insensitively; the schema is not part of this model.
- Ledger.NextTxnId: a new row's id is one above the largest id in use. The store's auto-increment counter is not rolled back with a failed insert, so after a rollback the store may skip ids; the model pins the id exactly, and the ledger properties rely only on it being above every existing id.
- UserController.Login: a failure of the credentials lookup, of the password check or of the token update is one `dbError` flag that gives 500 before anything is written. A token update that fails after the lookup is not modelled separately.
- Store failures in the read handlers and in the middleware are one boolean each. Which query failed is not modelled.
- TransactionModel.SortNewestFirst: ordering is proved (newest first, a permutation). SQL leaves the order of rows with equal created_at open; the model picks table order and states nothing about ties.
- UserController.SortNewestFirstInPlace: ordering and permutation are proved. Stability is not.
- AccountModel.FindByUserId and AccountModel.GetAllAccounts return sets, since the queries have no ORDER BY. The row order the database happens to use is not modelled.
- Password hashing (bcrypt) and token generation (uuid v4) are parameters. Their cryptographic properties are not modelled.
- Logging (`console.log`, `console.error`) is not modelled.
- Role is a closed choice of customer or banker. A row with any other role string would count as a non-banker and, in the customer listing, as a non-customer. The model has no such rows.
- Express routing, CORS, database configuration, the schema script and the password-hash script are not part of this model.
