# Banking ledger: idempotent, owner-checked transactions

This project models the core of a microservice banking application.

- **Account service.** It handles account creation, ledger transactions, account deletion and owner-checked reads, over a PostgreSQL store of accounts, transactions and idempotency keys. It also keeps a read cache.
- **Auth service.** It handles registration, login, access-token renewal and user deletion.
- **API gateway.** It maps gRPC errors to HTTP.
- **Web frontend.** It validates the sign-up and login forms.

How the model is built:

- Each store transaction (the `...Tx` helpers) is one atomic transition on an immutable store. It either commits all of its writes or returns an error and leaves the store as it was.
- An `Env` value supplies everything else a call depends on:
  - which store calls fail, and with what error;
  - the UUID and account number a call generates;
  - the outcomes of hashing and token generation.
- Idempotency keys follow a claim/complete protocol:
  - a fresh key is claimed as PENDING;
  - a completed key replays its stored response;
  - a successful transaction completes its key with its answer.
- On the account side, keys are scoped by (KeyID, UserID). On the auth side, they are scoped by KeyID alone.
- A CreateTransaction call is *applicable* when createTransactionTx would apply it: no store call fails, the requester owns the account, the key is fresh, the amount is nonzero, the generated id is unused and the new balance fits in BIGINT (`AccountService.Applicable`).

Modules, one file each:

| module | file | what it holds |
|---|---|---|
| `Errors` | errors.dfy | error values, `Option` and `Result`, SQLSTATE codes and the int64 range |
| `Ids` | ids.dfy | identifiers, and the ascending listing behind `ORDER BY id` |
| `Retry` | retry.dfy | the bounded retry loop with exponential backoff |
| `Ledger` | ledger.dfy | the account store and the SQL meaning of its queries |
| `AccountService` | account_service.dfy | the account service's transactions and reads |
| `AccountProperties` | account_properties.dfy | multi-call properties: additivity, at-most-once, replay, cache lag |
| `AuthStore` | auth_store.dfy | the auth store, execTx, and the repository's CreateUserTx |
| `AuthService` | auth_service.dfy | CreateUser, Login, RenewAccessToken, DeleteUser |
| `AuthProperties` | auth_properties.dfy | multi-call properties of the auth service |
| `Gateway` | gateway.dfy | WriteGRPCErrorToHTTP |
| `Validate` | validate.dfy | validateEmail, validatePassword, validateConfirmPassword |

## Model

| member | source | states |
|---|---|---|
| Retry.WithRetries | account/service/account.go:47-64 | The loop makes 1 to 3 attempts and returns the last attempt's outcome. Every attempt but the last failed with SQLSTATE 40001. It stops early only on an outcome that is not 40001. A non-40001 first outcome gives exactly one attempt and no sleep. There is one sleep per attempt when the last outcome is 40001, and one fewer otherwise. Backoff i is 2·2^i. |
| Retry.Loop | account/service/account.go:47-64 | From a given attempt on, the run ends at the first outcome that is not 40001 or at the last allowed attempt, and returns that attempt's outcome. Every earlier attempt of the run was 40001. Sleep i is the starting factor doubled i times. |
| Retry.ExhaustedRetriesBackOff | account/service/account.go:47-64 | Three serialization failures in a row: three attempts, sleeps of 2, 4 and 8 (×100 ms), and the third error is returned. |
| Retry.OneConflictThenSuccess | account/service/account.go:47-64 | One serialization failure followed by a success: two attempts, one sleep of 2 (×100 ms), and the success is returned. |
| Ids.Ascending | account/db/sqlc/accounts.sql.go:153-155 | Lists a set of ids once each in strictly ascending order, with exactly the set's elements. This is the row order of `ORDER BY id`. |
| Ledger.AccountByNumber | account/db/sqlc/accounts.sql.go:83-99 | It is None iff no account has that number. Otherwise it returns an account with that number. In a valid store, that account is the only one with the number. |
| Ledger.CreateAccount | account/db/sqlc/accounts.sql.go:40-70 | It fails with a unique violation iff the id or the account number is taken. Otherwise it inserts exactly the given row and returns it. |
| Ledger.AccountFor | account/repository/account.go:72-83 | The account built for a user has account id = owner = the user's id, the user's balance, and the generated number. |
| Ledger.AddToAccountBalance | account/db/sqlc/accounts.sql.go:14-38 | No matching number gives `sql.ErrNoRows`. Otherwise it returns the matching row with its balance raised by `amount`, and that row is the only change. For an existing number the only error is SQLSTATE 22003. In a valid store it succeeds iff the new balance fits in BIGINT. |
| Ledger.CreditByNumber | account/repository/account.go:114-123 | In a valid store, adding by the number of account `id` succeeds iff the new balance fits in BIGINT, and otherwise fails with SQLSTATE 22003. A success credits exactly that account by `amount` and keeps the store valid. |
| Ledger.DeleteAccountByAccountNumber | account/db/sqlc/accounts.sql.go:72-81 | It never fails. Afterwards no account has the number, every other account is unchanged, and exactly the deleted accounts' transactions are gone. |
| Ledger.DeleteThenLookupFails | account/repository/account_test.go:189-212 | After a delete by number, a lookup by that number finds nothing. No remaining transaction belongs to an account with that number. |
| Ledger.DuplicateAccountRejected | account/repository/account_test.go:79-100 | Inserting the same account twice fails the second time with a unique violation. |
| Ledger.GetAccountsByUserID | account/db/sqlc/accounts.sql.go:119-151 | It returns exactly the user's accounts, as many rows as the user has: each row is the user's, and every account of the user appears. In a valid store they come in strictly ascending id order, so each appears once. |
| Ledger.ListAccounts | account/db/sqlc/accounts.sql.go:153-185 | A negative limit is an error. Otherwise it returns min(limit, #accounts) rows, ordered by id. Every account with a smaller id than a returned row is returned too, so these are the least ids. |
| Ledger.CreateTransaction | account/repository/account.go:133-146 | It fails iff the id is taken or the account does not exist. Otherwise it inserts exactly the given row. |
| Ledger.GetTransactionsByAccountID | account/repository/account.go:156-166 | It returns exactly the account's transactions, as many rows as the account has. In a valid store they come in strictly ascending id order, so each appears once. |
| Ledger.GetOrClaimIdempotencyKey | account/repository/account.go:168-182 | A present (KeyID, UserID) key is returned with the store unchanged. An absent one is inserted as PENDING with an empty response. Accounts and transactions are untouched. |
| Ledger.UpdateIdempotencyKey | account/repository/account.go:184-194 | It sets status and response on every key with that KeyID, whatever its user, and leaves every other key unchanged. |
| Ledger.DeleteIdempotencyKeyByID | account/service/account.go:349-380 | It removes the keys with that KeyID for every user, and nothing else. |
| Ledger.AddsAccumulate | account/repository/account_test.go:124-187 | Successive adds to an existing account of a valid store all succeed iff every running balance fits in BIGINT. Then its balance has risen by the sum of the amounts, other accounts are unchanged and the store stays valid. |
| Ledger.AddStep | account/db/sqlc/accounts.sql.go:14-38 | In a valid store, one add to an existing account succeeds iff the new balance fits in BIGINT. It then sets that balance, changes no other account and keeps the store valid. |
| Ledger.DecodeTransaction | account/service/account.go:459-465 | Decoding a stored response succeeds iff it is a transaction's JSON. It then gives back that transaction. |
| Ledger.DecodeAccount | account/service/account.go:96-102 | Decoding a stored response succeeds iff it is an account's JSON. It then gives back that account. |
| AccountService.Classify | account/service/account.go:432-439 | `sql.ErrNoRows` becomes InvalidArgument; every other store error becomes InternalServer. |
| AccountService.CreateAccountTx | account/service/account.go:68-134 | Every failure is InternalServer. A completed key replays its decoded account with no write, and a decode failure is InternalServer. A fresh key inserts the account built for the user and completes the key with it. An existing account for the user makes a fresh-key call fail. Validity and "all keys completed" are preserved. |
| AccountService.CreateAccount | account/service/account.go:33-66 | A requester other than the user gets NotAuthorized, with no attempt and no change. Otherwise the result is that of the first attempt alone. A failure leaves the state unchanged and the cache is untouched. |
| AccountService.InsertAndCredit | account/service/account.go:478-494 | On success it inserts the transaction under a fresh id and credits exactly the owning account by the amount. Keys are untouched and the store stays valid. In a valid store, with no failing store call, an unused id and an in-range new balance, it succeeds. |
| AccountService.RecordTransaction | account/service/account.go:472-514 | A zero amount is InvalidArgument. On success the key records the new transaction, every key with the same KeyID is rewritten, one row is inserted and the account is credited. In a valid store, with no failing store call, a nonzero amount, an unused id and an in-range new balance, it succeeds. |
| AccountService.RecordFreshTransaction | account/service/account.go:449-514 | From a key the store does not hold, a zero amount is InvalidArgument. A success inserts exactly the new transaction under the fresh id, credits the account by the amount, adds exactly its key, records its answer under every key with that KeyID, and keeps the store valid. It succeeds whenever the call is applicable: no failing store call, an owned account, a fresh key, a nonzero amount, an unused id and an in-range new balance. |
| AccountService.CreateTransactionTx | account/service/account.go:413-515 | The checks run in order: a missing account is InvalidArgument, a foreign account is NotAuthorized, a completed key replays its stored transaction with no write, and a zero amount on a fresh key is InvalidArgument. A fresh-key success inserts exactly one transaction, credits exactly `amount`, adds exactly its key and records its answer. Every applicable call succeeds. |
| AccountService.CreateTransaction | account/service/account.go:382-410 | It makes exactly one attempt. A failure leaves the state unchanged. A success evicts the account from the cache iff the invalidation has run. Validity and "all keys completed" are preserved. An applicable call succeeds. |
| AccountService.RecordDeletion | account/service/account.go:291-313 | It deletes exactly the account and its transactions, and completes the key with "success". |
| AccountService.DeleteAccountTx | account/service/account.go:241-318 | A missing account is InvalidArgument and a foreign account is NotAuthorized, both before the key. A completed key succeeds with no deletion. A fresh key deletes exactly that account and its transactions, and records "success". With no failing store call, the owner's delete succeeds. |
| AccountService.DeleteAccountTxAsWritten | account/service/account.go:275-305 | It agrees with DeleteAccountTx except when the key claim reports no rows, and then it fails. |
| AccountService.ClaimWithoutRowsDereferencesNil | account/service/account.go:284-307 | With an owned account and a claim that reports no rows, the code as written reaches `key.Status` with a nil key. The corrected helper answers InternalServer. |
| AccountService.DeleteAccountByAccountNumber | account/service/account.go:212-239 | It makes one attempt. A failure changes nothing. A success adopts the transaction's store and evicts the deleted account from the cache iff the invalidation has run. |
| AccountService.DeleteIdempotencyKeyTx | account/service/account.go:349-380 | It fails iff begin, delete or commit fails, and then with InternalServer. On success the KeyID is gone for every user and the other tables are unchanged. |
| AccountService.DeleteIdempotencyKeyByID | account/service/account.go:320-347 | There is no owner check. It succeeds iff no store call fails, and on success no key with that KeyID remains. |
| AccountService.GetAccount | account/service/account.go:137-178 | A cache hit is answered from the cache after the owner check, without the store. On a miss, a missing account is InvalidArgument and a foreign one is NotAuthorized. An owned account is returned and written to the cache iff the write succeeds. Every success is the requester's. |
| AccountService.GetAccountsByUserID | account/service/account.go:181-188 | It fails (InternalServer) iff the query fails. Otherwise it returns exactly the user's accounts, as many rows as the user has. |
| AccountService.GetAccountByAccountNumber | account/service/account.go:190-210 | No such number is InvalidArgument and a foreign account is NotAuthorized (both iff). A success is the requester's account with that number. |
| AccountService.GetTransactionsByAccountID | account/service/account.go:614-660 | A missing account is InvalidArgument and a foreign one is NotAuthorized. A success lists exactly the transactions of an account the requester owns, as many rows as the account has. With no failing store call, the owner's request succeeds. |
| AccountService.ValidateAccountNumber | account/service/account.go:662-680 | The result is true iff the account exists and the requester owns it. A missing or foreign account is `false` without error. Only a store error other than no-rows is an error. |
| AccountService.HasSufficientBalance | account/service/account.go:682-700 | With no store failure and an account the requester owns, the answer is exactly balance ≥ amount. A missing account is InvalidArgument and a foreign one is NotAuthorized. |
| AccountProperties.CreateAccountReplaysOriginal | account/service/account.go:93-103 | A second CreateAccount with the same key, whatever its body, returns the first call's account and leaves the state as the first call left it. |
| AccountProperties.SecondAccountRejected | account/repository/account.go:72-83 | Since the account id is the user id, a user who has an account cannot open another with a fresh key. |
| AccountProperties.EarlierAnswersStable | account/service/account_test.go:225-264 | Appending calls never changes the answers already given. |
| AccountProperties.BalanceAdditivity | account/service/account_test.go:165-213 | Calls with distinct fresh keys on one owned account move its balance by exactly the sum of the amounts of the calls that succeeded. The store stays valid and only these calls' keys are added. |
| AccountProperties.UnobstructedCallsAllSucceed | account/service/account_test.go:165-213 | When nothing stops such calls (no failing store call, nonzero amounts, distinct unused ids, every running balance in BIGINT), every call succeeds. The balance then moves by the sum of all the amounts, and exactly their transactions are inserted. |
| AccountProperties.Additivity | account/service/account.go:478-514 | The same for any handler that credits fresh-key calls exactly on success. |
| AccountProperties.AllApply | account/service/account.go:468-514 | For any handler that credits fresh-key calls and succeeds on applicable ones: unobstructed calls with distinct fresh keys on an owned account all succeed. They raise its balance by the sum of all their amounts, insert exactly their own transactions and add no key but theirs. |
| AccountProperties.SameKeyAppliesOnce | account/service/account_test.go:215-264 | If the first of several same-key calls succeeds, the store stays exactly as that call left it. Every later success answers the first transaction, whatever the later bodies. |
| AccountProperties.SameKeyAppliesExactlyOnce | account/service/account_test.go:215-264 | If the first of several same-key calls is applicable, it succeeds, and the balance moves by its amount exactly once. Its transaction is the only one inserted, and every later success answers it. |
| AccountProperties.SameKeyInvariant | account/service/account.go:449-466 | Under a handler that records fresh successes and replays completed keys, the key keeps recording the first answer and no later call writes. |
| AccountProperties.FreshCallStep | account/service/account.go:478-514 | One fresh-key call keeps the store valid and the account owned. It credits the amount exactly when it succeeds, adds only its own key, and records its answer. |
| AccountProperties.ApplicableCallStep | account/service/account.go:449-514 | One applicable CreateTransaction succeeds and inserts exactly its own transaction. |
| AccountProperties.FirstCallApplies | account/service/account.go:449-514 | An applicable first call succeeds, moves the balance by its amount and inserts only its own transaction. |
| AccountProperties.SettledCallStep | account/service/account.go:449-466 | One call with a completed key changes no table, and a success answers the stored transaction. |
| AccountProperties.ZeroAmountRejectedUnlessReplayed | account/service/account.go:449-476 | Amount 0 on a fresh key is InvalidArgument with no change. On a completed key the stored transaction is returned anyway. |
| AccountProperties.DeleteReplayReportsMissingAccount | account/service/account.go:259-289 | Replaying a delete that went through reports InvalidArgument (the account is gone), not the stored "success". |
| AccountProperties.StaleReadWithoutInvalidation | account/service/account.go:382-399 | Before the invalidation runs, and while the entry is still cached (within its 5 s TTL), a read after a successful transaction answers the cached account with the old balance. |
| AccountProperties.ExpiredEntryReadsStore | account/internal/cache/account.go:40-44 | Once the cached entry has expired (its 5 s TTL), a read after a successful transaction goes to the store and answers the new balance, even though the invalidation has not run. |
| AccountProperties.FreshReadAfterInvalidation | account/service/account.go:137-178 | After the invalidation has run, the next read returns the store's row with the new balance. |
| AccountProperties.ForeignCompletionOverwritesKey | account/repository/account.go:184-194 | Another user's completion of the same KeyID overwrites the first user's stored answer. The first user's replay then returns the other user's transaction. |
| AuthStore.UserByEmail | auth/repository/auth.go:124-130 | It is None iff no user has the email. Otherwise it returns a stored user with that email. |
| AuthStore.DeleteUserRow | auth/repository/auth.go:152-158 | Afterwards the user is gone, every other user is unchanged and none is added. Tokens and keys are untouched and validity is preserved. |
| AuthStore.TokenByValue | auth/repository/auth.go:184-190 | It is None iff no stored refresh token has that value. Otherwise it returns a stored token row with that value. |
| AuthStore.InsertRefreshToken | auth/repository/auth.go:171-182 | It fails with a unique violation iff the id is taken. Otherwise it adds exactly that row. |
| AuthStore.DecodeUser | auth/service/auth.go:93-99 | Decoding a stored response succeeds iff it is a user's JSON. It then gives back that user. |
| AuthStore.DecodeLogin | auth/service/auth.go:216-222 | Decoding a stored response succeeds iff it is a login result's JSON. It then gives back that result. |
| AuthStore.DecodeAccessToken | auth/service/auth.go:326-332 | Decoding a stored response succeeds iff it is an access token's JSON. It then gives back that token. |
| AuthStore.InsertUser | auth/repository/auth.go:116-122 | It fails with a unique violation iff the id or email is taken. Otherwise it inserts exactly the row. |
| AuthStore.GetOrClaimIdempotencyKey | auth/repository/auth.go:192-202 | The key is looked up by KeyID alone. A present key is returned unchanged and an absent one is inserted as PENDING. |
| AuthStore.UpdateIdempotencyKey | auth/repository/auth.go:204-214 | It sets the status and response of that KeyID only. A missing key changes nothing. |
| AuthStore.ExecTx | auth/repository/auth.go:57-70 | It commits iff begin, `fn` and commit succeed. Otherwise it returns the first error and the store is rolled back. |
| AuthStore.InsertNewUser | auth/repository/auth.go:89-113 | It inserts the hashed password under a fresh id and answers the email with an empty password and no id. |
| AuthStore.CreateUserStepAsWritten | auth/repository/auth.go:76-103 | A taken email gives "user already exists". A free email gives `sql.ErrNoRows`. Only some other lookup error reaches the insert. |
| AuthStore.CreateUserStep | auth/repository/auth.go:76-103 | A taken email gives "user already exists", and any other lookup error is passed back. A success means the email was free and is now registered. |
| AuthStore.CreateUserTxAsWritten | auth/repository/auth.go:73-114 | It can succeed only when the email lookup failed with an error other than no-rows. |
| AuthStore.CreateUserTx | auth/repository/auth.go:73-114 | A success means the email was free and is now taken. With no failures and a free email it succeeds. |
| AuthStore.NewEmailRefused | auth/repository/auth.go:85-87 | With a free email and no failures, the code as written answers `sql.ErrNoRows`. The corrected one registers the user. |
| AuthService.CreateUserTx | auth/service/auth.go:67-137 | A taken email is "user already exists", before the key is looked at. A completed key replays its decoded user with no write. A fresh key inserts the hashed user under a fresh id and completes the key with it. With no failures, a hash, a free email, an unused key and an unused id, it succeeds. |
| AuthService.CreateUserAsWritten | auth/service/auth.go:55-65 | Every failure, a taken email included, is InternalServer. |
| AuthService.CreateUser | auth/service/auth.go:55-65 | A taken email is UserAlreadyExists and every other failure is InternalServer. Success and result are those of createUserTx. |
| AuthService.TakenEmailIsInternal | auth/service/auth.go:58-63 | For a registered email, the code as written answers InternalServer. The corrected one answers UserAlreadyExists. |
| AuthService.Login | auth/service/auth.go:177-275 | An unknown email or a failed lookup is NotAuthenticated, and so is a wrong password. A completed key replays its decoded result. A fresh key stores a refresh token expiring at now + duration and completes the key with the result. A failure after the token write keeps only that token row. The stored row holds the token value the caller receives (an assumption, see "## Left out"). |
| AuthService.LoginAsWritten | auth/service/auth.go:195-198 | It behaves as Login with every password comparison succeeding. |
| AuthService.WrongPasswordAccepted | auth/service/auth.go:195-198 | A registered email with a wrong password logs in as written, and is NotAuthenticated when corrected. |
| AuthService.RenewAccessToken | auth/service/auth.go:277-365 | The checks run in order: an unknown token is NotAuthorized, a failed user lookup is InternalServer, a token of another user is NotAuthorized, and `now` after expiry is NotAuthenticated. A completed key replays its access token with no write. A fresh key completes with the new token. With no failing store call, a fresh key and the requester's own token, it succeeds iff `now` is not after the expiry. |
| AuthService.DeleteUser | auth/service/auth.go:164-175 | Deleting another user is NotAuthorized with no change. It succeeds iff the user deletes themselves and the delete works, and then exactly that user is gone. |
| AuthProperties.CreateUserReplayNotCached | auth/service/auth.go:77-104 | Replaying a successful CreateUser with the same key answers UserAlreadyExists (InternalServer as written), never the stored user, and changes nothing. |
| AuthProperties.RefreshTokenOutlivesRollback | auth/service/auth.go:235-244 | When completing the key fails, Login answers InternalServer, but the issued refresh token stays in the store. |
| AuthProperties.ForeignLoginReplay | auth/repository/auth.go:192-202 | A second user logging in with a KeyID the first user's login completed gets the first user's login result, and no token is issued. |
| AuthProperties.RenewReplaysOriginal | auth/service/auth.go:323-333 | A renewal repeated with the same key returns exactly the first answer and state. |
| AuthProperties.ExpiryIsStrict | auth/service/auth.go:301-304 | A refresh token is accepted at its expiry instant and refused (NotAuthenticated) one unit after. |
| Gateway.WriteGrpcErrorToHttp | api-gateway/utils/gRPC_to_HTTP.go:17-53 | A non-status error is 500 "Internal server error". InvalidArgument is 400, but 401 for "invalid JWT". AlreadyExists is 409, Unauthenticated is 401 and Internal is 500. Each of these is an iff. Those four codes keep their message; every other code is 500 with the generic message. |
| Gateway.PermissionDeniedIsServerError | api-gateway/utils/gRPC_to_HTTP.go:44-47 | A PermissionDenied status becomes 500 with the generic message. |
| Validate.PatternIsWellShaped | frontend/src/lib/utils/validate.ts:2 | A string matches the email pattern iff it has no whitespace, exactly one '@' with a non-empty local part, and a '.' in the domain that is neither its first nor its last character. |
| Validate.ValidateEmail | frontend/src/lib/utils/validate.ts:1-6 | Empty gives "Email is required". A non-empty email that does not match the pattern gives the invalid message. The email is accepted iff it matches. |
| Validate.Utf16Length | frontend/src/lib/utils/validate.ts:10 | It counts the JavaScript length in UTF-16 units: between n and 2n for n characters, and n exactly iff every character is in the Basic Multilingual Plane. |
| Validate.ValidatePassword | frontend/src/lib/utils/validate.ts:8-12 | Empty gives "Password is required", and under 8 UTF-16 units gives the length message. It is accepted iff it has at least 8 units. |
| Validate.FourAstralCharactersSuffice | frontend/src/lib/utils/validate.ts:10 | Four characters outside the Basic Multilingual Plane make an acceptable password. |
| Validate.ValidateConfirmPassword | frontend/src/lib/utils/validate.ts:14-18 | An empty confirmation is reported first, and a mismatch next. It is accepted iff the confirmation is non-empty and equal to the password. |
| Validate.ConfirmAcceptsOnlyTheSame | frontend/src/lib/utils/validate.ts:14-17 | A password that passes its own check can be confirmed by itself. An empty password can never be confirmed. |

## Left out

- Retry loop. The sleeps are recorded as backoff factors and never executed. Because each `...Tx` helper maps every error to a service sentinel, the 40001 branch is dead. The services therefore settle after one attempt, and the loop's behaviour is proved on its own in `Retry`.
- Concurrency:
  - No goroutines or row locks are modelled, and no store work is interleaved.
  - A concurrent duplicate is a later call that finds the key present.
  - The fire-and-forget cache invalidation is a boolean that says whether it has run by the time of the next read.
- Redis, the network and the 50 ms benchmark sleep in GetAccount. The cache is a map. Its reachability and write success are parameters.
- AccountService.GetAccount: cache entries expire 5 s after they are written (account/internal/cache/account.go:17,43). The map never expires them; a read of an expired entry is modelled as a read with `reachable == false`, which goes to the store.
- JSON is left out. Stored responses are an abstract payload of one kind per response type. Marshal failures, which cannot occur for these structs, are not modelled.
- Ledger.DecodeAccount: `json.Unmarshal` accepts any JSON object and zero-fills the fields it does not find. A stored transaction would decode as an account with the fields the two share. The model answers InternalServer for every payload of another kind. The Transaction struct and its JSON tags are not part of this model, so the lenient decoding cannot be stated exactly.
- Ledger.DecodeTransaction: the same leniency. Another kind of object would decode as a mostly zero transaction, where the model answers InternalServer.
- AuthStore.DecodeUser: the same leniency. Another kind of object would decode as a mostly zero user, where the model answers InternalServer.
- AuthStore.DecodeLogin: the same leniency. Another kind of object would decode as a mostly zero login result, where the model answers InternalServer.
- AuthStore.DecodeAccessToken: the same leniency. Another kind of object would decode as a mostly zero access token, where the model answers InternalServer.
- Cryptography and randomness: bcrypt, JWT, SHA-256, UUIDs, account numbers and tokens. These are `Env` parameters: the hash result, the comparison verdict, the generated tokens, the fresh id and the fresh number.
- `time.Now`. Login and RenewAccessToken take an explicit `now`, and expiry is an integer instant.
- Integer widths. Identifiers are naturals, and the source's mix of int32/int64 account numbers and string/UUID keys is not reproduced. Only the BIGINT overflow of the balance update is modelled (SQLSTATE 22003).
- AuthStore.UpdateIdempotencyKey: the repository method returns the updated row along with the error, and its SQL is not part of this model. The model assumes that an update of a missing KeyID changes nothing and reports no error. Nothing in the services reaches that case.
- The commented-out AddToAccountBalance service method (account/service/account.go:517-607) is not code.
- The transfer service is left out, as are the gateway's handlers, middleware and clients, and the frontend stores. They are transport, UI or plain CRUD without service logic.
- UpdateUser, UpdateUserPassword and GetUserProfileByID of the auth service are left out. They are thin pass-throughs to single store calls, outside the idempotency protocol.
- The auth repository's DeleteIdempotencyKeyByID is left out. The auth service never calls it.
- ListAccounts is modelled at the store level only. No service calls it.
- The account repository's GetAccountByID and GetTransactionByID are single-row selects. They are modelled as map lookups (`Ledger.AccountById`).
- Validate.ValidateEmail: `\s` is the ECMAScript white-space set, written out as code points. The characters are Dafny `char`s (Unicode scalar values), so a lone surrogate cannot occur.
- Validate.ValidatePassword: JavaScript's `length` counts UTF-16 code units. This is modelled as `Utf16Length`, not as `|s|`.
- AccountProperties.BalanceAdditivity: it covers calls with pairwise distinct fresh keys on one account. Same-key calls are covered by SameKeyAppliesOnce instead. UnobstructedCallsAllSucceed gives the all-succeed case; it assumes no failing store call, nonzero amounts, distinct unused ids and running balances within BIGINT.
- Ledger.GetAccountsByUserID: the query has no ORDER BY, so PostgreSQL may return the rows in any order. The ascending id order is the model's choice, not a promise of the source.
- Ledger.GetTransactionsByAccountID: the SQL behind it is not part of this model. The ascending id order is the model's choice.
- AuthService.Login: the refresh-token row is assumed to hold the same token value that Login returns and that RenewAccessToken looks up. The source does not settle this: auth/service/auth.go:236-240 fills a `Token` field, auth/repository/auth.go:175 writes the `TokenHash` field to the row and line 51 reads the row back into `TokenHash`, and the generator that matches the service's calls, auth/utils/jwt.go:62-73, returns `Token` and `Duration` (auth/utils/random.go:88-105 is a stale copy that builds `TokenAsCookie` and `TokenHash` instead). The struct that joins them is not part of this model. Read literally, the row would hold an empty hash and RenewAccessToken would never find a token issued by Login; the model takes the evident intent instead. AuthProperties.ExpiryIsStrict and AuthProperties.RenewReplaysOriginal rest on this choice.

## Findings

| source | as written | input that shows it | evidently intended | confidence | as-written member | corrected member |
|---|---|---|---|---|---|---|
| auth/service/auth.go:195-198 | `if bcrypt.CompareHashAndPassword(...); err != nil` tests the lookup's `err`, which is nil there, so the comparison's result is dropped | a registered email with a wrong password, no store failures | a wrong password is NotAuthenticated | not executed | AuthService.LoginAsWritten (shown by AuthService.WrongPasswordAccepted) | AuthService.Login |
| auth/service/auth.go:55-65 | only a `*pq.Error` unique violation becomes UserAlreadyExists, but createUserTx reports a taken email as `errors.New("user already exists")` and every store error as InternalServer | a registration with an email already registered | a taken email is UserAlreadyExists | not executed | AuthService.CreateUserAsWritten (shown by AuthService.TakenEmailIsInternal) | AuthService.CreateUser |
| auth/repository/auth.go:85-87 | a lookup that finds no row returns `sql.ErrNoRows`, so a free email is refused and only other lookup errors reach the insert | a store without the email, no failures | no row means the email is free and the user is inserted | not executed | AuthStore.CreateUserTxAsWritten (shown by AuthStore.NewEmailRefused) | AuthStore.CreateUserTx |
| account/service/account.go:284-307 | a key claim that fails with `sql.ErrNoRows` is let through with a nil key; the account is deleted and `key.Status = "COMPLETED"` dereferences nil | an owned account, a claim that reports no rows | every claim failure is InternalServer, as in the other helpers | not executed | AccountService.DeleteAccountTxAsWritten (shown by AccountService.ClaimWithoutRowsDereferencesNil) | AccountService.DeleteAccountTx |
