# Credit Jambo — a Dafny model of the savings, credit and account core

Credit Jambo is a savings-and-credit service. An Express/Prisma backend
serves a React client. This project models the backend's business rules and
the client's pure helpers as Dafny, and proves what they promise.

**Savings** (`SavingsStore`, `Savings`)
- An account is `Active` or `Frozen`, and each user has at most one.
- Deposits and withdrawals are gated by the account's status. A withdrawal is also gated by the balance.
- Each movement writes the new balance and appends one transaction row recording `balanceBefore` and `balanceAfter`, as one unit.
- The store keeps a ghost record of each account's opening balance. Its invariant `Ledgered` is the ledger equation: every balance is the opening balance plus deposits minus withdrawals, and the log chains from one row to the next.
- Every service operation preserves that invariant.

**Credit** (`CreditStore`, `Credit`)
- Requests: at most one pending request per user, a fixed 5% rate, and bounds on the amount and the duration.
- Repayments: allowed only against an approved request the caller owns.
- The remaining balance is derived from the repayment table each time it is needed. Invariant `WithinOwed`: no request is ever repaid beyond what it owes.
- A repayment reference is drawn from a generator until one is found that no repayment holds.

**Notifications** (`NotificationsStore`, `Notifications`)
- A notification record store that is owner-checked.
- Delivery is a queue, modelled as the service's `outbox` sequence of payloads handed over.

**Authentication and users** (`AuthStore`, `Auth`, `Users`)
- A user table unique by id, email and phone number.
- A refresh-token table; every record points at an existing user.
- Services: registration, login, token refresh (a new pair is issued and the presented refresh token stays valid), logout, and profile and password updates.

**Request rules** (`Validation`)
- The express-validator rule sets of the savings and credit routes, as predicates. String fields are read by their text, as the validator library reads them.
- Lemmas showing they give the services the bounds the services assume.

**Client** (`Text`, `ClientValidation`, `UI`)
- JavaScript `\s` and `trim`, the form validators, and the toast store.

Shared pieces:
- `Common`: ids, options, results, the error taxonomy, and the "newest first, then skip/take" query semantics.
- `Response`: the response envelopes and the `totalPages` ceiling.

What stands in for the source's outside world:
- **Database:**
  - Each table is a field of a repository class: a `seq` in insertion order, or a `map` keyed by the unique key.
  - Row ids come from a per-store counter, `nextId`.
  - A write the database would refuse (unique key, foreign key, missing row) returns `Failure(Persistence)`.
- **Clock:** the `now` argument.
- **Random reference generator:** its values are arguments. `MakeRepayment` receives the sequence of candidates.
- **JWT signer:** its output for a call is the `issued` token pair.
- **Password hashing and checking:** the function-typed constants `hash` and `verify`. Their one assumed law is `verify(p, hash(p))`.
- **Redis blacklist:** the `blacklist` set.
- **Notification queue:** the `outbox` sequence.
- **Money:** `real`.

## Model

| member | source | states |
|---|---|---|
| Common.OrDefault | backend/src/modules/savings/savings.service.ts:77 | `value \|\| fallback`: a supplied non-empty string is kept; absent or empty gives the fallback |
| Common.NewestFirst | backend/src/modules/savings/savings.repository.ts:58-60 | `orderBy desc` on insertion order: same length, row i is row n-1-i of the table |
| Common.Window | backend/src/modules/savings/savings.repository.ts:58-60 | `skip`/`take`: exactly `min(take, n − skip)` rows (none past the end), namely the rows from position `skip` on |
| Response.TotalPages | backend/src/common/utils/response.util.ts:22 | `Math.ceil(total/limit)`: n·limit ≥ total, (n−1)·limit < total, and n = 0 exactly when total = 0 |
| Response.TotalPagesLeast | backend/src/common/utils/response.util.ts:22 | every k with k·limit ≥ total is at least the page count, so the count is the least such k |
| Response.OffsetWithinPages | backend/src/common/utils/response.util.ts:22 | a page number p with p·limit below the total is below the ceiling page count, so no page that starts inside the rows lies past `totalPages` |
| Response.EveryRowOnAPage | backend/src/modules/credit/credit.service.ts:62 | with `skip = (page − 1)·limit`, row k is row `k % limit` of page `k / limit + 1`, and that page is within the ceiling page count: every row is shown on exactly the page its position gives |
| Response.SuccessResponse | backend/src/common/utils/response.util.ts:4-8 | success is true, data is returned unchanged, and an absent or empty message becomes "Operation successful" |
| Response.Paginated | backend/src/common/utils/response.util.ts:10-24 | echoes data, page, limit and total; totalPages is `TotalPages(total, limit)`, the ceiling, so it covers every row and is 0 exactly when total is 0 |
| Text.SkipSpace | client/src/common/utils/validation.util.ts:47 | the first position at or after `i` that is not `\s` (or the end); everything skipped is `\s` |
| Text.BackSpace | client/src/common/utils/validation.util.ts:47 | the mirror image: walking back from `j` to no lower than `lo`, it stops just after the last non-`\s` character, and everything skipped is `\s` |
| Text.Trim | client/src/common/utils/validation.util.ts:47 | no longer than its input, and a non-empty result starts and ends with a non-`\s` character |
| Text.TrimIsCore | backend/src/modules/credit/credit.validation.ts:5 | `trim()` returns the contiguous piece of its input that starts at the first non-`\s` character, with only `\s` cut from either side |
| Text.TrimEmptyIff | client/src/common/utils/validation.util.ts:45-48 | trim gives the empty string exactly when the input is all `\s` |
| Text.TrimKeepsUnpadded | backend/src/modules/credit/credit.validation.ts:5 | a string with no `\s` at either end is its own trim |
| Text.TrimIdempotent | client/src/common/utils/validation.util.ts:50-56 | trimming twice equals trimming once |
| SavingsStore.Apply | backend/src/modules/savings/savings.repository.ts:31-33 | an update writes the supplied name, currency and status and keeps id, owner and balance |
| SavingsStore.TxsOf | backend/src/modules/savings/savings.repository.ts:58-64 | an account's rows: exactly the log entries carrying that account id |
| SavingsStore.ChainedBalance | backend/src/modules/savings/savings.service.ts:62-82 | a chained log reconciles: balance = opening + Σdeposits − Σwithdrawals |
| SavingsStore.ChainedLinks | backend/src/modules/savings/savings.service.ts:94-119 | in a chained log the first row starts at the opening balance, each row starts where the previous ended, the last ends at the balance, and every row is a step of its own amount |
| SavingsStore.ChainedAppend | backend/src/modules/savings/savings.repository.ts:35-56 | appending a step that starts at the current balance keeps the log chained |
| SavingsStore.SavingsRepository.FindAccountByUserId | backend/src/modules/savings/savings.repository.ts:19-21 | the user's single account, or none exactly when that user has none |
| SavingsStore.SavingsRepository.CreateAccount | backend/src/modules/savings/savings.repository.ts:23-25 | adds one account under a fresh id; the unique key on the owner refuses a second account |
| SavingsStore.SavingsRepository.UpdateAccountById | backend/src/modules/savings/savings.repository.ts:27-29 | changes only the supplied fields of the account with that id; fails on a missing id |
| SavingsStore.SavingsRepository.UpdateAccountByUserId | backend/src/modules/savings/savings.repository.ts:31-33 | changes only the supplied fields of that user's account; balance, log and ledger untouched |
| SavingsStore.SavingsRepository.UpdateBalanceAndCreateTransaction | backend/src/modules/savings/savings.repository.ts:35-56 | as one unit, sets that account's balance and appends exactly one row with the given fields; with no such account neither happens; every other account is unchanged |
| SavingsStore.SavingsRepository.ListTransactions | backend/src/modules/savings/savings.repository.ts:58-60 | exactly `min(take, n − skip)` of the account's n rows, row i being the (skip+i)-th newest |
| SavingsStore.SavingsRepository.CountTransactions | backend/src/modules/savings/savings.repository.ts:62-64 | the number of that account's rows |
| SavingsStore.SavingsRepository.DeleteAccountByUserId | backend/src/modules/savings/savings.repository.ts:66-68 | removes that user's account; the other accounts and the transaction log are kept |
| SavingsStore.ListAllIsWholeLog | backend/src/modules/savings/savings.repository.ts:58-64 | listing from 0 with the count as page size returns the account's whole log, newest first |
| Savings.SavingsService.CreateAccount | backend/src/modules/savings/savings.service.ts:9-41 | Conflict when the user has an account (checked first), BadRequest for a negative opening deposit, else an active account holding the deposit with the name and currency defaults; the ledger invariant is kept |
| Savings.SavingsService.GetAccount | backend/src/modules/savings/savings.service.ts:43-53 | the user's account, or NotFound exactly when there is none |
| Savings.SavingsService.GetBalance | backend/src/modules/savings/savings.service.ts:124-130 | the account's balance and currency, or NotFound |
| Savings.SavingsService.Deposit | backend/src/modules/savings/savings.service.ts:55-85 | NotFound or frozen: refused and nothing changes, whatever the amount; else balance + amount and exactly one `deposit` row (before/after, `completed`, description defaulting to "Deposit"); the ledger is kept, and non-negativity too for a non-negative amount |
| Savings.SavingsService.Withdraw | backend/src/modules/savings/savings.service.ts:87-122 | NotFound, frozen, or amount > balance: refused and nothing changes; else balance − amount ≥ 0 and exactly one `withdrawal` row; ledger and non-negativity kept |
| Savings.SavingsService.GetTransactions | backend/src/modules/savings/savings.service.ts:132-154 | NotFound, or the account's listing at `skip = (page − 1)·limit`, `take = limit`, with the account's total and totalPages = `TotalPages(total, limit)` |
| Savings.SavingsService.FreezeAccount | backend/src/modules/savings/savings.service.ts:156-167 | freezing a frozen account is BadRequest; else only the status becomes Frozen; balance and log untouched |
| Savings.SavingsService.UnfreezeAccount | backend/src/modules/savings/savings.service.ts:169-180 | unfreezing an active account is BadRequest; else only the status becomes Active |
| Savings.SavingsService.UpdateAccount | backend/src/modules/savings/savings.service.ts:182-203 | only the supplied name and currency change; balance, status and log kept |
| Savings.SavingsService.DeleteAccount | backend/src/modules/savings/savings.service.ts:205-215 | BadRequest unless the balance is exactly 0; else the account is removed, and the other accounts and the transaction log are kept |
| Savings.LedgerBalance | backend/src/modules/savings/savings.service.ts:62-82 | in every reachable store each balance = opening + deposits − withdrawals of its own log, and the log chains from the opening balance to the balance |
| CreditStore.ApplyUpdate | backend/src/modules/credit/credit.repository.ts:64-66 | writes the supplied status, approver and rejection reason; amount, rate, purpose, duration and owner kept |
| CreditStore.FirstPending | backend/src/modules/credit/credit.repository.ts:19-21 | a pending request of the user, or none exactly when the user has no pending request |
| CreditStore.RepaymentsFor | backend/src/modules/credit/credit.repository.ts:39-41 | all and only the repayments pointing at the request |
| CreditStore.RepaymentByReference | backend/src/modules/credit/credit.repository.ts:43-45 | the repayment holding the reference, or none exactly when none does |
| CreditStore.CreditRepository.FindPendingRequestByUser | backend/src/modules/credit/credit.repository.ts:19-21 | a pending request of the user, or none exactly when none exists |
| CreditStore.CreditRepository.CreateRequest | backend/src/modules/credit/credit.repository.ts:23-25 | appends exactly one request with a fresh id; repayments untouched |
| CreditStore.CreditRepository.ListRequests | backend/src/modules/credit/credit.repository.ts:27-29 | exactly `min(take, n − skip)` of the n matching requests, row i being the (skip+i)-th newest match |
| CreditStore.CreditRepository.CountRequests | backend/src/modules/credit/credit.repository.ts:31-33 | the number of matching requests |
| CreditStore.CreditRepository.FindRequestById | backend/src/modules/credit/credit.repository.ts:35-37 | the request with that id, or none exactly when there is none |
| CreditStore.CreditRepository.FindRequestWithRepayments | backend/src/modules/credit/credit.repository.ts:39-41 | the request together with all and only its repayments |
| CreditStore.CreditRepository.FindRepaymentByReference | backend/src/modules/credit/credit.repository.ts:43-45 | a repayment with that reference, or none exactly when the reference is unused |
| CreditStore.CreditRepository.CreateRepayment | backend/src/modules/credit/credit.repository.ts:47-49 | appends exactly one repayment; the foreign key refuses a missing request and the unique key a taken reference |
| CreditStore.ParentsExistAfterRepayment | backend/src/modules/credit/credit.repository.ts:47-49 | appending a repayment whose request exists keeps every repayment pointing at an existing request |
| CreditStore.UniqueReferencesAfterRepayment | backend/src/modules/credit/credit.repository.ts:47-49 | appending a repayment under a reference nobody holds keeps references unique |
| CreditStore.CreditRepository.ListRepayments | backend/src/modules/credit/credit.repository.ts:51-58 | exactly `min(take, n − skip)` of that request's n repayments, row i being the (skip+i)-th newest |
| CreditStore.CreditRepository.CountRepayments | backend/src/modules/credit/credit.repository.ts:60-62 | the number of that request's repayments |
| CreditStore.CreditRepository.UpdateRequestById | backend/src/modules/credit/credit.repository.ts:64-66 | changes only the supplied fields of that request, leaving other rows and every repayment alone |
| CreditStore.ParentsExistAfterUpdate | backend/src/modules/credit/credit.repository.ts:64-66 | updating a request leaves every repayment's request findable |
| Credit.TotalOwed | backend/src/modules/credit/credit.service.ts:151 | principal plus interest: never below the principal, and 1.05 times it at the fixed 5% rate |
| Credit.Repaid | backend/src/modules/credit/credit.service.ts:150 | the sum of the repayment amounts; never negative when no amount is |
| Credit.Remaining | backend/src/modules/credit/credit.service.ts:150-152 | total owed minus the request's repayments; the full total owed while the request has none |
| Credit.RemainingAfterRepayment | backend/src/modules/credit/credit.service.ts:150-180 | recording a repayment lowers its request's remaining balance by exactly its amount and leaves every other request's alone |
| Credit.FirstUnused | backend/src/modules/credit/credit.service.ts:162-172 | the first candidate reference not yet taken: it is free and every earlier candidate is taken |
| Credit.RepaidAppend | backend/src/modules/credit/credit.service.ts:150 | the repaid total of two runs of repayments is the sum of their totals |
| Credit.RepaidAmount | backend/src/modules/credit/credit.service.ts:150 | the head-first `reduce` from a running sum comes to that sum plus `Repaid`, the total defined from the other end |
| Credit.OwnedLookup | backend/src/modules/credit/credit.service.ts:106-112 | with unique ids the row found under an id is the only one, so someone else's row means the user owns none |
| Credit.CreditService.RequestCredit | backend/src/modules/credit/credit.service.ts:13-59 | BadRequest for amount ≤ 0, then for a duration outside [1,120]; Conflict when the user has a pending request; else exactly one pending request at 5% with the given fields; at-most-one-pending and within-owed are preserved |
| Credit.AddPendingKeepsOnePending | backend/src/modules/credit/credit.service.ts:22-31 | adding a request for a user who has no pending one keeps every user at one pending request at most |
| Credit.AddRequestKeepsWithinOwed | backend/src/modules/credit/credit.service.ts:35-44 | a new request owes a non-negative total and has nothing repaid, so no request is repaid beyond what it owes |
| Credit.CreditService.GetCreditRequests | backend/src/modules/credit/credit.service.ts:61-99 | the total is the number of the user's requests matching the status (when one is given and non-empty); the rows are that listing at `skip = (page − 1)·limit`, `take = limit`; totalPages = `TotalPages(total, limit)` |
| Credit.CreditService.GetCreditRequestById | backend/src/modules/credit/credit.service.ts:101-127 | the request only to its owner; the same NotFound exactly when the user owns no request with that id |
| Credit.CreditService.MakeRepayment | backend/src/modules/credit/credit.service.ts:129-190 | same NotFound for missing and foreign; BadRequest unless approved; the excess check before the non-positive check; else exactly one repayment under the first free candidate reference, remaining drops by the amount and stays ≥ 0, and within-owed is preserved |
| Credit.AddRepaymentKeepsWithinOwed | backend/src/modules/credit/credit.service.ts:150-156 | a repayment no larger than its request's remaining balance keeps every request repaid at most up to what it owes |
| Credit.CreditService.GetRepaymentHistory | backend/src/modules/credit/credit.service.ts:192-233 | NotFound exactly when the user does not own the request; else the request's repayments listed at `skip = (page − 1)·limit`, `take = limit`, their total, and totalPages = `TotalPages(total, limit)`, 0 exactly when there are none |
| NotificationsStore.OfUser | backend/src/modules/notifications/notifications.repository.ts:25-31 | exactly the user's rows, in table order |
| NotificationsStore.NotificationById | backend/src/modules/notifications/notifications.repository.ts:33-35 | the row with that id, or none exactly when there is none |
| NotificationsStore.MarkRow | backend/src/modules/notifications/notifications.repository.ts:37-39 | same length; the row with that id gets `read` = true, every other row is unchanged |
| NotificationsStore.MarkRowIdempotent | backend/src/modules/notifications/notifications.repository.ts:37-39 | marking read twice equals marking once |
| NotificationsStore.MarkRowKeepsListing | backend/src/modules/notifications/notifications.repository.ts:25-39 | filtering by user commutes with marking read, so no listing changes except that flag |
| NotificationsStore.NotificationsRepository.Create | backend/src/modules/notifications/notifications.repository.ts:13-23 | appends one row with the given fields and a fresh id; `read` is false unless supplied |
| NotificationsStore.NotificationsRepository.ListByUser | backend/src/modules/notifications/notifications.repository.ts:25-27 | exactly `min(take, n − skip)` of the user's n rows, row i being the (skip+i)-th newest |
| NotificationsStore.NotificationsRepository.CountByUser | backend/src/modules/notifications/notifications.repository.ts:29-31 | the number of the user's rows |
| NotificationsStore.NotificationsRepository.FindById | backend/src/modules/notifications/notifications.repository.ts:33-35 | the row with that id, or none exactly when there is none |
| NotificationsStore.NotificationsRepository.MarkRead | backend/src/modules/notifications/notifications.repository.ts:37-39 | flags that row read and changes no other field or row; a missing row fails |
| Notifications.NotificationsService.Notify | backend/src/modules/notifications/notifications.service.ts:11-35 | BadRequest when the user, type, title or message is missing or empty, with nothing recorded or queued; else one unread record carrying the payload under the next id, then the payload queued once; the returned value mirrors the record |
| Notifications.NotificationsService.List | backend/src/modules/notifications/notifications.service.ts:37-56 | the user's listing at `skip = (page − 1)·limit`, `take = limit`, the user's total, and totalPages = `TotalPages(total, limit)` |
| Notifications.NotificationsService.MarkAsRead | backend/src/modules/notifications/notifications.service.ts:58-65 | missing and foreign give the same NotFound and change nothing; else only that row is flagged read |
| Notifications.MarkAsReadEffect | backend/src/modules/notifications/notifications.service.ts:58-65 | after marking, the row is read and still owned, every user's count is unchanged, and a second mark changes nothing |
| AuthStore.ProfileOf | backend/src/modules/auth/auth.service.ts:96-109 | every shown field is the user's own, and there is no password field |
| AuthStore.ProfileHidesPassword | backend/src/modules/users/users.service.ts:18-28 | the profile does not depend on the password; two users with the same profile differ at most in the password |
| AuthStore.FindUser | backend/src/modules/auth/auth.repository.ts:15-25 | a user holding the key, or none exactly when nobody holds it |
| AuthStore.FindUserUnique | backend/src/modules/auth/auth.repository.ts:15-25 | with unique keys, the lookup returns the one user holding the key |
| AuthStore.ApplyUser | backend/src/modules/users/users.service.ts:50-57 | writes only the supplied name, phone and password columns; id, email, role and status kept |
| AuthStore.UpdateUserRow | backend/src/modules/users/users.service.ts:50-57 | only the row with that id is changed |
| AuthStore.TokenByValue | backend/src/modules/auth/auth.repository.ts:35-37 | the record with that value, or none exactly when there is none |
| AuthStore.Revoke | backend/src/modules/auth/auth.repository.ts:39-41 | every record with that value is stamped revoked; every other record unchanged |
| AuthStore.RevokeLookup | backend/src/modules/auth/auth.repository.ts:39-41 | after revoking, the value's record is found revoked at `now`, and every other value is found as before |
| AuthStore.AuthRepository.Find | backend/src/modules/auth/auth.repository.ts:15-25 | the unique user holding the key, or none exactly when nobody does |
| AuthStore.AuthRepository.CreateUser | backend/src/modules/auth/auth.repository.ts:27-29 | adds exactly one user with a fresh id; a taken email or phone is refused |
| AuthStore.AuthRepository.CreateRefreshToken | backend/src/modules/auth/auth.repository.ts:31-33 | adds exactly one record with the given user, token and expiry, not revoked |
| AuthStore.OwnersExistAfterToken | backend/src/modules/auth/auth.repository.ts:31-33 | adding a token of an existing user keeps every token owned by an existing user |
| AuthStore.UniqueTokensAfterToken | backend/src/modules/auth/auth.repository.ts:31-33 | adding a token under a value nobody holds keeps token values unique |
| AuthStore.AuthRepository.FindRefreshToken | backend/src/modules/auth/auth.repository.ts:35-37 | the record with that value together with its owning user, or none exactly when there is no record |
| AuthStore.AuthRepository.RevokeRefreshToken | backend/src/modules/auth/auth.repository.ts:39-41 | stamps every record of that value revoked; a silent no-op when there is none; users untouched |
| AuthStore.RevokeKeepsTokens | backend/src/modules/auth/auth.repository.ts:39-41 | revoking changes no value and no owner, so values stay unique and owners existing |
| AuthStore.AuthRepository.UpdateUserById | backend/src/modules/users/users.service.ts:50-57 | writes the supplied columns of that user; a missing user or a phone held by someone else fails |
| AuthStore.UpdateKeepsUnique | backend/src/modules/users/users.service.ts:50-57 | an update that gives nobody another user's phone number keeps ids, emails and phone numbers unique |
| Auth.RefreshAccepted | backend/src/modules/auth/auth.service.ts:72 | honoured only if a record with that value exists, is not revoked and has not expired; an unknown value is refused |
| Auth.RevokedRefused | backend/src/modules/auth/auth.service.ts:72-82 | after a revoke the token is refused at every time, and every other token is honoured exactly as before |
| Auth.LoginNotice | backend/src/modules/auth/auth.service.ts:58-63 | the login notice names the user and is complete, so it is never refused |
| Auth.AuthService.GenerateTokens | backend/src/modules/auth/auth.service.ts:84-110 | stores exactly one refresh token for the user, expiring now + 7 days, and answers with both tokens and the profile |
| Auth.AuthService.Register | backend/src/modules/auth/auth.service.ts:15-35 | a taken email or phone is Conflict and creates nobody; else one active customer with the hashed password, whom login then admits, and one refresh token |
| Auth.AuthService.Login | backend/src/modules/auth/auth.service.ts:37-67 | the same "Invalid credentials" for an unknown email and a wrong password; an inactive account is refused only after the password matched; else one refresh token, then one unread login notification recorded and its notice queued, with the answer not depending on the notice |
| Auth.AuthService.Refresh | backend/src/modules/auth/auth.service.ts:69-77 | a missing, revoked or expired token is Unauthorized and changes nothing; else one new refresh token for the token's owner |
| Auth.AuthService.Logout | backend/src/modules/auth/auth.service.ts:79-82 | revokes the refresh token, blacklists the access token, and the refresh token is refused from then on |
| Users.ProfileUpdate | backend/src/modules/users/users.service.ts:52-56 | only the non-empty supplied values are written; the password never is |
| Users.UsersService.GetProfile | backend/src/modules/users/users.service.ts:9-29 | NotFound exactly when there is no such user; else that user's profile, without the password |
| Users.UsersService.UpdateProfile | backend/src/modules/users/users.service.ts:31-70 | NotFound; Conflict when a new phone number belongs to someone else, updating nothing; else only the non-empty names and phone are written, and email, role and status are kept; the answer is the updated row's password-free profile |
| Users.UsersService.ChangePassword | backend/src/modules/users/users.service.ts:72-93 | NotFound; a wrong current password is Unauthorized and changes nothing; else only the stored password changes, to hash(new) |
| Users.UpdatedRowFound | backend/src/modules/users/users.service.ts:89-92 | after the update the user's lookup finds the updated row |
| Validation.MovementBody | backend/src/modules/savings/savings.validation.ts:3-13 | an accepted amount reads as at least 0.01; a missing amount, a non-number, or a string `isNumeric` refuses (such as `1e1`) is refused; a JSON number of at least 0.01 with an absent or string description is accepted; a description that is not a string is refused |
| Validation.PageQuery | backend/src/modules/savings/savings.validation.ts:15-18 | an accepted page is read as an integer ≥ 1 and an accepted limit as an integer in [1, 100]; conversely, each absent or written as such an integer is accepted; a string not written as an integer, or any other value, is refused |
| Validation.CreateAccountBody | backend/src/modules/savings/savings.validation.ts:20-24 | any string name and currency (numeric ones included), with no deposit or one that `isFloat` reads as ≥ 0, is accepted; a name or currency that is not a string is refused; an accepted initial deposit reads as a number ≥ 0, and a negative one is refused |
| Validation.UpdateAccountBody | backend/src/modules/savings/savings.validation.ts:26-29 | absent or string name and currency are accepted, numeric strings included; a JSON number or other value for either is refused |
| Validation.RequestCreditBody | backend/src/modules/credit/credit.validation.ts:3-7 | an accepted amount reads as at least 0.01; an accepted purpose is a string whose trimmed length, counted as `isLength` counts it (without U+FE0E and U+FE0F), is in [10, 500], and one outside that window is refused; an accepted duration reads as an integer in [1, 120]; a JSON request meeting all three is accepted |
| Validation.CreditListQuery | backend/src/modules/credit/credit.validation.ts:9-13 | accepted exactly when the paging rules accept and the status is absent or any string (`?status=1` included); a non-string status is refused |
| Validation.RepaymentBody | backend/src/modules/credit/credit.validation.ts:15-17 | every amount the deposit rule accepts is accepted, and an accepted one reads as at least 0.01; for a non-string amount it is exactly the deposit rule |
| Validation.IntLiteral | backend/src/modules/savings/savings.validation.ts:16-17 | `isInt`'s text form: an accepted string is an optional sign followed by digits only |
| Validation.IntLiteralHasNoPointOrExponent | backend/src/modules/savings/savings.validation.ts:16-17 | text containing a point or an exponent letter is never an integer for `isInt`, even when it writes a whole number |
| Validation.IntLiteralIsFloat | backend/src/modules/credit/credit.validation.ts:4-6 | every string `isInt` accepts `isFloat` accepts too, with the same value |
| Validation.FloatLiteral | backend/src/modules/credit/credit.validation.ts:4 | `isFloat`'s text form: an accepted string is non-empty and does not start with `\s`, and it reads as negative only when it starts with `-` |
| Validation.NumericIsFloat | backend/src/modules/savings/savings.validation.ts:4-5 | every string `isNumeric` accepts `isFloat` reads as a number |
| Validation.ParseInt | backend/src/modules/savings/savings.controller.ts:351-352 | `parseInt` on decimal text: all-`\s` text is NaN |
| Validation.IntLiteralParses | backend/src/modules/savings/savings.controller.ts:351-352 | `parseInt` reads a string `isInt` accepts as the same integer, and stops at the first non-digit after it (`"12abc"` is 12) |
| Validation.AcceptedIntParses | backend/src/modules/savings/savings.controller.ts:351-352 | a non-zero integer `isInt` accepts is the number the controller's `parseInt(...) || default` yields |
| Validation.NumericStringsAreStrings | backend/src/modules/savings/savings.validation.ts:20-29 | `{"name":"2024","currency":"840"}` passes account creation and update, and `?status=1` passes the credit listing rules |
| Validation.PagesAreWrittenAsIntegers | backend/src/modules/savings/savings.validation.ts:15-18 | pages `2` and limit `100` pass; pages `2.0` and `1e1` are refused |
| Validation.DecimalStringIsRead | backend/src/modules/savings/savings.validation.ts:3-7 | the string `0.5` reads as one half and passes the deposit rules |
| Validation.ExponentFormSeparatesRules | backend/src/modules/credit/credit.validation.ts:15-17 | `1e1` reads as ten; it passes the repayment rule (`isFloat` only) and fails the deposit rules (`isNumeric` first) |
| Validation.RequestCreditIgnoresPadding | backend/src/modules/credit/credit.validation.ts:5 | a purpose and its trimmed form get the same verdict, so `\s` padding never changes whether a request is accepted |
| Validation.CountedLength | backend/src/modules/credit/credit.validation.ts:5 | the length `isLength` measures: at most the number of characters, and equal to it when there is no variation selector |
| Validation.CountedLengthAppend | backend/src/modules/credit/credit.validation.ts:5 | an appended character adds one to the length, and a variation selector adds nothing |
| Validation.SelectorDoesNotCount | backend/src/modules/credit/credit.validation.ts:5 | a U+FE0F after a purpose never changes the verdict |
| Validation.NineLettersAndSelectorAreShort | backend/src/modules/credit/credit.validation.ts:5 | nine letters and a U+FE0F are refused as shorter than 10 |
| Validation.SuppliedValuesAreAccepted | backend/src/modules/savings/savings.validation.ts:15-24 | `?page=3` passes the paging rules and `{"initialDeposit":100}` passes account creation |
| Validation.PurposeAfterRules | backend/src/modules/credit/credit.validation.ts:5 | the purpose passed on is the trimmed string, with no `\s` at either end |
| Validation.ParseIntOr | backend/src/modules/savings/savings.controller.ts:351-352 | `parseInt(v) || fallback`: a query string is read by `ParseInt`, and its non-zero value is kept; an absent or other value gives the fallback; with a non-zero fallback the result is never 0 |
| Validation.PageQueryMeetsServices | backend/src/modules/savings/savings.validation.ts:15-18 | an accepted page/limit query gives the services page ≥ 1 and 1 ≤ limit ≤ 100 |
| Validation.RequestCreditBodyMeetsService | backend/src/modules/credit/credit.validation.ts:3-7 | an accepted credit request reads as an amount > 0 and an integer duration in [1, 120], so it passes the service's checks |
| Validation.RepaymentBodyIsPositive | backend/src/modules/credit/credit.validation.ts:15-17 | an accepted repayment reads as a positive amount, so the service never refuses it as non-positive |
| Validation.MovementBodyIsPositive | backend/src/modules/savings/savings.validation.ts:3-13 | an accepted deposit or withdrawal reads as a positive amount, and every amount that reads as ≤ 0 is refused |
| ClientValidation.IndexOf | client/src/common/utils/validation.util.ts:2 | the first position of the character, or none exactly when it does not occur |
| ClientValidation.IsValidEmail | client/src/common/utils/validation.util.ts:1-4 | an accepted address has at least 5 characters and no `@` at either end; an address without `@` is refused |
| ClientValidation.EmailShapeIff | client/src/common/utils/validation.util.ts:1-4 | the scan accepts exactly the strings of the form local@name.last with every part non-empty and free of `\s` and `@` |
| ClientValidation.IsValidPassword | client/src/common/utils/validation.util.ts:6-9 | fewer than 8 characters is refused; an accepted password meets at least four of the five strength criteria |
| ClientValidation.Score | client/src/common/utils/validation.util.ts:14-20 | at most 5, and 5 exactly when all five criteria hold |
| ClientValidation.PasswordStrength | client/src/common/utils/validation.util.ts:11-25 | weak below 6 characters or at ≤ 2 criteria, medium at 3–4, strong exactly when all five hold |
| ClientValidation.ValidPasswordNotWeak | client/src/common/utils/validation.util.ts:6-25 | a password the form accepts is never weak, and it is strong exactly when it has a character other than a letter or a digit |
| ClientValidation.Digits | client/src/common/utils/validation.util.ts:28 | only digits remain, no longer than the input, and an all-digit input is returned unchanged |
| ClientValidation.IsValidPhoneNumber | client/src/common/utils/validation.util.ts:27-39 | valid exactly when the digits start with 250 and number 12, or start with 07 and number 10 |
| ClientValidation.PhoneIgnoresFormatting | client/src/common/utils/validation.util.ts:27-39 | inserting a non-digit anywhere, or keeping only the digits, never changes the verdict |
| ClientValidation.IsValidAmount | client/src/common/utils/validation.util.ts:41-43 | every amount of at least 0.01 (the server's floor) passes, and no amount ≤ 0 does |
| ClientValidation.AmountRulesCompared | client/src/common/utils/validation.util.ts:41-43 | every amount the server accepts passes the form check on the number it reads as, but 0.005 passes the form and fails the server |
| ClientValidation.IsRequired | client/src/common/utils/validation.util.ts:45-48 | false when absent; otherwise true exactly when the string is not all `\s` |
| ClientValidation.HasMinLength | client/src/common/utils/validation.util.ts:50-52 | a passing value is at least that long untrimmed; an all-`\s` value passes only a minimum ≤ 0 |
| ClientValidation.HasMaxLength | client/src/common/utils/validation.util.ts:54-56 | a value within the maximum untrimmed always passes; an all-`\s` value passes every maximum ≥ 0 |
| ClientValidation.LengthChecksIgnorePadding | client/src/common/utils/validation.util.ts:50-56 | a value and its trimmed form pass or fail the length checks alike |
| ClientValidation.SanitizeInput | client/src/common/utils/validation.util.ts:58-60 | no longer than the input, and uses only the input's characters |
| ClientValidation.SanitizeKeepsPlainPrefix | client/src/common/utils/validation.util.ts:58-60 | text before the first `<` is kept as it is |
| ClientValidation.SanitizeDropsTag | client/src/common/utils/validation.util.ts:58-60 | a `<`, a run without `>`, and a `>` are removed together, and what follows is sanitized on its own |
| ClientValidation.SanitizeIsTagFree | client/src/common/utils/validation.util.ts:58-60 | the output has no `<` with a `>` after it |
| ClientValidation.SanitizeKeepsTagFree | client/src/common/utils/validation.util.ts:58-60 | input with nothing to strip comes back unchanged |
| ClientValidation.SanitizeIdempotent | client/src/common/utils/validation.util.ts:58-60 | sanitizing twice equals sanitizing once |
| UI.WithoutId | client/src/store/uiStore.ts:43-47 | keeps exactly the toasts with another id; an unknown id leaves the list unchanged |
| UI.WithoutIdAppend | client/src/store/uiStore.ts:43-47 | the filter distributes over concatenation, so kept toasts stay in order |
| UI.WithoutIdLaws | client/src/store/uiStore.ts:43-47 | removing twice equals removing once, and removals commute |
| UI.ExpiryUndoesShow | client/src/store/uiStore.ts:27-40 | the scheduled expiry removes the toast just shown and, when its id was fresh, restores the list as it was |
| UI.DelayOf | client/src/store/uiStore.ts:35 | `duration \|\| 5000`: an absent or zero duration means 5000 ms |
| UI.UIStore.SetLoading | client/src/store/uiStore.ts:23-25 | changes only the loading flag |
| UI.UIStore.ShowToast | client/src/store/uiStore.ts:27-41 | appends exactly one toast with the caller's type, message and duration and the clock as id, keeps the others in order and the flag unchanged, and schedules that id's removal after the delay |
| UI.UIStore.RemoveToast | client/src/store/uiStore.ts:43-47 | the list without that id, with the flag unchanged |
| UI.UIStore.ClearToasts | client/src/store/uiStore.ts:49-51 | empties the list and leaves the flag unchanged |

## Left out

- `mapTransaction`, and the object-to-response projections of every service: field renaming with no rules. The model returns the store rows; `Profile` is the one projection kept, because it drops the password.
- `generateReference` in savings and credit: the clock and `Math.random` are outside the model. Savings references are arguments of `Deposit` and `Withdraw`, and no uniqueness is claimed for them, because the code never checks. Credit references are the candidate sequence given to `MakeRepayment`.
- Credit.CreditService.MakeRepayment: requires that one of the given candidates is free. The source's loop retries without bound, and terminates only when the generator eventually yields a free value.
- Credit.ExceedsRemaining: the source appends ` Remaining: <remaining.toFixed(2)>` to this message. The constant omits that suffix, because number formatting is not modelled.
- Money is `real`. JS floating-point rounding, `NaN`, Prisma `Decimal` conversion and `Number(...)` are not modelled.
- Timestamps (`createdAt`, `updatedAt`, `sentAt`, `approvedAt`) are not stored. Ordering by them is insertion order.
- Concurrency and atomicity across requests are not modelled. `makeRepayment`'s read and insert, and `requestCredit`'s check and insert, run as uninterrupted sequences.
- The savings and credit services call Prisma directly, while the model routes them through the `SavingsRepository` and `CreditRepository` classes. These model the same tables and queries.
- The services' `page` and `limit` defaults: the functions taking them require `page >= 1` and `limit >= 1`. `Validation.PageQueryMeetsServices` shows that the route rules and the savings and credit controllers' `parseInt(q) || default` guarantee this. The notifications controller writes `parseInt(q || default)` (backend/src/modules/notifications/notifications.controller.ts:107-108) instead. On a query the rules accept, that gives the same numbers, because an accepted page or limit is never 0. This form is not modelled separately.
- Validation.Value: a field is absent, a JSON number, a string or something else, and the rules read a string by its text (`IntLiteral`, `FloatLiteral`, `NumericLiteral`). The services take numbers. Nothing converts an accepted numeric string: the controllers pass `req.body` to the services as it is (backend/src/modules/savings/savings.controller.ts:224). So an amount of `"0.5"` reaches `deposit`, where `balanceBefore + data.amount` (backend/src/modules/savings/savings.service.ts:63) concatenates strings. A balance of 5 and that amount give `"50.5"`, and the ledger equation that `Savings.LedgerBalance` proves does not hold for that input. The services' comparisons (`amount <= 0`, `durationMonths < 1`) coerce the string and see the reading the model uses.
- Validation.FloatLiteral: the value is the exact decimal the text writes. Rounding to a double is not modelled, so texts that differ only beyond double precision read as different numbers here.
- Validation.IsNumeric: a JSON number counts as numeric text. `String(x)` writes numbers of 1e21 or more (and below 1e-6) in exponent form, which `isNumeric` and `isInt` refuse; those magnitudes are not modelled.
- Validation.ParseInt: decimal text only. `parseInt` without a radix reads a `0x` prefix as hexadecimal; such a query never passes `isInt`, so it never reaches the controllers' `parseInt`.
- A repeated query parameter or a JSON array field is an array, which express-validator checks element by element. The model counts it as `Other`, which every rule refuses.
- String lengths are counted in characters (code points). JS `.length` and the non-unicode regex `.{8,}` count UTF-16 code units (client/src/common/utils/validation.util.ts:7, 12, 16, 51, 55). A character outside the Basic Multilingual Plane counts 2 there and 1 here, so the password and length checks can differ on such input.
- SavingsStore.SavingsRepository.DeleteAccountByUserId: the account's transaction rows are kept. What `delete` does to them depends on the referential action in the database schema (cascade, restrict or set null), and the schema is not part of this model. `Savings.SavingsService.DeleteAccount` also keeps them.
- Credit.CreditService.RequestCredit: takes `durationMonths` as an integer. The source compares a JS number (backend/src/modules/credit/credit.service.ts:18), so the service alone accepts 1.5. The route's `isInt` rule refuses a fractional duration before the service runs (`Validation.RequestCreditBodyMeetsService`).
- Password hashing and checking are deterministic functions: bcrypt's random salt is not modelled. The only property assumed is `verify(p, hash(p))`.
- JWT signing, the token payload, and the access-token check in the middleware are left out. The Redis blacklist's time-to-live is left out too; the blacklist is a set that only grows.
- The notification queue and worker are left out. `enqueueNotification` is modelled as appending the payload to `outbox`.
- Database write failures other than key and row constraints are left out.
- `notify`'s record creation can fail only through the model's own checks. Login swallows a failing notice in the source, and the notice the model sends is complete, so it cannot fail.
- UI.UIStore.ShowToast: the toast id is the clock reading as a number, not its decimal string. The timer is returned as an `Expiry` value; the scheduled removal is `RemoveToast` on that id, as `UI.ExpiryUndoesShow` states.
- `backend/src/modules/users/users.repository.ts` is not part of this model: `users.service.ts` does not use it.
- Controllers, routes, middleware, and the React pages and components are not part of this model.
