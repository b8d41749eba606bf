/** The account service (account/service/account.go): account creation,
    ledger transactions and account deletion, each an idempotency-keyed store
    transaction behind a retry loop, and the owner-checked reads.

    Each `...Tx` function is one store transaction. It either returns
    `Ok(Applied(value, db'))`, having committed all of its writes, or `Err(e)`,
    having rolled all of them back (the deferred `tx.Rollback()`). A replay
    returns before it commits, so its rollback undoes the claim and the store is
    left as it was. What a transaction depends on besides the store (which
    store calls fail, a fresh UUID, a fresh account number) is an `Env`. */
module AccountService {
  import opened Errors
  import opened Ids
  import opened Ledger
  import opened Retry

  /** The store calls of a transaction that can fail for reasons the model
      does not see: a lost connection, a cancelled context, a conflict with a
      concurrent transaction. */
  datatype Step = Begin | Lookup | ClaimKey | Insert | AddBalance | Delete | Complete | Select | Commit

  /** Which store calls of one attempt fail and with what, the id `uuid.New()`
      returns, and the number `utils.RandomAccountNumber()` returns. */
  datatype Env = Env(faults: map<Step, StoreError>, freshId: Uuid, freshNumber: int)

  predicate Fails(env: Env, step: Step) {
    step in env.faults
  }

  /** How a failed lookup or update is reported: `sql.ErrNoRows` becomes
      InvalidArgument, anything else InternalServer. */
  function Classify(cause: StoreError): (e: Error)
    ensures e == Service(InvalidArgument) <==> cause == NoRows
    ensures e == Service(InvalidArgument) || e == Internal
  {
    if cause == NoRows then Service(InvalidArgument) else Internal
  }

  /** The store and the read cache (a map that may lag the store). */
  datatype State = State(db: Db, cache: map<Uuid, Account>)

  /** A service call's answer, the state it leaves, and how many transaction
      attempts it made. */
  datatype Reply<+T> = Reply(result: Result<T>, state: State, attempts: nat)

  function Settle<T>(st: State, run: Run<Applied<T>>): Reply<T> {
    match run.result
    case Ok(applied) => Reply(Ok(applied.value), st.(db := applied.db), run.attempts)
    case Err(e) => Reply(Err(e), st, run.attempts)
  }

  /** The reply of a retry loop that stopped after its first attempt. */
  function OneAttempt<T>(st: State, outcome: Result<Applied<T>>): Reply<T> {
    Settle(st, Run(outcome, 1, []))
  }

  ghost predicate Owns(db: Db, accountId: Uuid, userId: Uuid) {
    accountId in db.accounts && db.accounts[accountId].userId == userId
  }

  ghost predicate HasSettledKey(db: Db, keyId: Uuid, userId: Uuid) {
    (keyId, userId) in db.keys && db.keys[(keyId, userId)].status == Completed
  }

  /** The key of this call now records `response` as its completed answer. */
  ghost predicate Records(db: Db, keyId: Uuid, userId: Uuid, response: Payload) {
    (keyId, userId) in db.keys && db.keys[(keyId, userId)].status == Completed &&
    db.keys[(keyId, userId)].response == response
  }

  /** When createTransactionTx goes through with a fresh key: no store call
      fails, the account is the requester's, the amount is not zero, the
      generated id is unused, and the new balance fits in a BIGINT. */
  ghost predicate Applicable(db: Db, t: Transaction, keyId: Uuid, requester: Uuid, env: Env) {
    && Valid(db) && env.faults == map[]
    && Owns(db, t.accountId, requester) && (keyId, requester) !in db.keys
    && t.amount != 0 && env.freshId !in db.transactions
    && IsInt64(db.accounts[t.accountId].balance + t.amount)
  }

  // ---------------------------------------------------------- CreateAccount

  function CreateAccountTx(db: Db, user: User, keyId: Uuid, requester: Uuid, env: Env): (r: Result<Applied<Account>>)
    ensures r.Err? ==> r.error == Internal
    ensures !Fails(env, Begin) && !Fails(env, ClaimKey) && HasSettledKey(db, keyId, requester) ==>
      var stored := db.keys[(keyId, requester)].response;
      && (DecodeAccount(stored).Some? ==> r == Ok(Applied(DecodeAccount(stored).value, db)))
      && (DecodeAccount(stored).None? ==> r == Err(Internal))
    ensures r.Ok? && (keyId, requester) !in db.keys ==>
      && r.value.value == AccountFor(user, env.freshNumber)
      && r.value.db.accounts == db.accounts[user.userId := r.value.value]
      && r.value.db.transactions == db.transactions
      && r.value.db.keys.Keys == db.keys.Keys + {(keyId, requester)}
    ensures r.Ok? ==> Records(r.value.db, keyId, requester, AccountJson(r.value.value))
    ensures (keyId, requester) !in db.keys && user.userId in db.accounts ==> r == Err(Internal)
    ensures r.Ok? && Valid(db) && Settled(db) ==> Valid(r.value.db) && Settled(r.value.db)
    ensures ((keyId, requester) !in db.keys && env.faults == map[] &&
             user.userId !in db.accounts && AccountByNumber(db, env.freshNumber).None?) ==> r.Ok?
  {
    if Fails(env, Begin) || Fails(env, ClaimKey) then Err(Internal)
    else
      var claim := GetOrClaimIdempotencyKey(db, keyId, requester);
      if claim.key.status != Pending then
        match DecodeAccount(claim.key.response)
        case None => Err(Internal)
        case Some(cached) => Ok(Applied(cached, db))
      else if Fails(env, Insert) then Err(Internal)
      else
        match Ledger.CreateAccount(claim.db, AccountFor(user, env.freshNumber))
        case Err(_) => Err(Internal)
        case Ok(created) =>
          if Fails(env, Complete) || Fails(env, Commit) then Err(Internal)
          else
            var done := UpdateIdempotencyKey(created.db, keyId, Completed, AccountJson(created.value));
            assert done.keys[(keyId, requester)] == created.db.keys[(keyId, requester)].(status := Completed, response := AccountJson(created.value));
            Ok(Applied(created.value, done))
  }

  /** CreateAccount: only the user may open their own account; then at most
      three attempts of createAccountTx, of which only the first ever runs,
      since the helper reports every failure as a model sentinel and the loop
      retries only on SQLSTATE 40001. */
  function CreateAccount(st: State, user: User, keyId: Uuid, requester: Uuid, envs: seq<Env>): (r: Reply<Account>)
    requires |envs| == MaxRetries
    ensures requester != user.userId ==> r == Reply(Err(Service(NotAuthorized)), st, 0)
    ensures requester == user.userId ==>
      r == OneAttempt(st, CreateAccountTx(st.db, user, keyId, requester, envs[0]))
    ensures r.result.Err? ==> r.state == st
    ensures r.state.cache == st.cache
    ensures Valid(st.db) && Settled(st.db) ==> Valid(r.state.db) && Settled(r.state.db)
  {
    if requester != user.userId then Reply(Err(Service(NotAuthorized)), st, 0)
    else
      var outcomes := seq(MaxRetries, i requires 0 <= i < MaxRetries => CreateAccountTx(st.db, user, keyId, requester, envs[i]));
      Settle(st, WithRetries(outcomes))
  }

  // ------------------------------------------------------ CreateTransaction

  /** The two writes of createTransactionTx: insert the row under a new id,
      then add its amount to the account's balance. Keys are not touched. */
  function InsertAndCredit(db: Db, t: Transaction, env: Env): (r: Result<Applied<Transaction>>)
    requires t.accountId in db.accounts
    ensures r.Err? ==> r.error.Service?
    ensures r.Ok? ==> r.value.value == t.(transactionId := env.freshId) && r.value.db.keys == db.keys
    ensures r.Ok? && Valid(db) ==>
      && env.freshId !in db.transactions
      && r.value.db.transactions == db.transactions[env.freshId := r.value.value]
      && r.value.db.accounts == Credited(db.accounts, t.accountId, t.amount)
      && Valid(r.value.db)
    ensures (Valid(db) && env.faults == map[] && env.freshId !in db.transactions &&
             IsInt64(db.accounts[t.accountId].balance + t.amount)) ==> r.Ok?
  {
    if Fails(env, Insert) then Err(Internal)
    else
      match Ledger.CreateTransaction(db, t.(transactionId := env.freshId))
      case Err(_) => Err(Internal)
      case Ok(inserted) =>
        if Fails(env, AddBalance) then Err(Classify(env.faults[AddBalance]))
        else
          CreditByNumber(inserted.db, t.accountId, t.amount);
          match AddToAccountBalance(inserted.db, db.accounts[t.accountId].accountNumber, t.amount)
          case Err(e) => Err(Classify(e.cause))
          case Ok(updated) => Ok(Applied(inserted.value, updated.db))
  }

  /** The rest of createTransactionTx once the key is claimed as PENDING:
      reject a zero amount, write, and complete the key with the new row. */
  function RecordTransaction(claimed: Db, t: Transaction, keyId: Uuid, requester: Uuid, env: Env): (r: Result<Applied<Transaction>>)
    requires (keyId, requester) in claimed.keys && t.accountId in claimed.accounts
    ensures r.Err? ==> r.error.Service?
    ensures t.amount == 0 ==> r == Err(Service(InvalidArgument))
    ensures r.Ok? ==> Records(r.value.db, keyId, requester, TransactionJson(r.value.value))
    ensures r.Ok? ==> t.amount != 0 && r.value.db.keys.Keys == claimed.keys.Keys
    ensures r.Ok? ==> forall s | s in claimed.keys && s.0 == keyId ::
      r.value.db.keys[s] == claimed.keys[s].(status := Completed, response := TransactionJson(r.value.value))
    ensures r.Ok? ==> forall s | s in claimed.keys && s.0 != keyId :: r.value.db.keys[s] == claimed.keys[s]
    ensures r.Ok? ==> r.value.value == t.(transactionId := env.freshId)
    ensures r.Ok? && Valid(claimed) ==>
      && env.freshId !in claimed.transactions
      && r.value.db.transactions == claimed.transactions[env.freshId := r.value.value]
      && r.value.db.accounts == Credited(claimed.accounts, t.accountId, t.amount)
      && Valid(r.value.db)
    ensures r.Ok? && (forall s | s in claimed.keys && s.0 != keyId :: claimed.keys[s].status == Completed) ==>
      Settled(r.value.db)
    ensures (Valid(claimed) && env.faults == map[] && t.amount != 0 && env.freshId !in claimed.transactions &&
             IsInt64(claimed.accounts[t.accountId].balance + t.amount)) ==> r.Ok?
  {
    if t.amount == 0 then Err(Service(InvalidArgument))
    else
      match InsertAndCredit(claimed, t, env)
      case Err(e) => Err(e)
      case Ok(written) =>
        if Fails(env, Complete) || Fails(env, Commit) then Err(Internal)
        else Ok(Applied(written.value, UpdateIdempotencyKey(written.db, keyId, Completed, TransactionJson(written.value))))
  }

  /** createTransactionTx from the claim of a key the store does not hold yet. */
  function RecordFreshTransaction(db: Db, t: Transaction, keyId: Uuid, requester: Uuid, env: Env): (r: Result<Applied<Transaction>>)
    requires (keyId, requester) !in db.keys && Owns(db, t.accountId, requester)
    ensures r.Err? ==> r.error.Service?
    ensures t.amount == 0 ==> r == Err(Service(InvalidArgument))
    ensures r.Ok? ==> Records(r.value.db, keyId, requester, TransactionJson(r.value.value))
    ensures r.Ok? ==> forall s | s in db.keys && s.0 == keyId :: s in r.value.db.keys && r.value.db.keys[s].response == TransactionJson(r.value.value)
    ensures r.Ok? && Valid(db) ==>
      var created := t.(transactionId := env.freshId);
      && t.amount != 0
      && r.value.value == created
      && env.freshId !in db.transactions
      && r.value.db.transactions == db.transactions[env.freshId := created]
      && r.value.db.accounts == Credited(db.accounts, t.accountId, t.amount)
      && r.value.db.keys.Keys == db.keys.Keys + {(keyId, requester)}
      && Valid(r.value.db)
    ensures r.Ok? && Settled(db) ==> Settled(r.value.db)
    ensures Applicable(db, t, keyId, requester, env) ==> r.Ok?
  {
    var claimed := GetOrClaimIdempotencyKey(db, keyId, requester).db;
    RecordTransaction(claimed, t, keyId, requester, env)
  }

  function CreateTransactionTx(db: Db, t: Transaction, keyId: Uuid, requester: Uuid, env: Env): (r: Result<Applied<Transaction>>)
    ensures r.Err? ==> r.error.Service?
    ensures !Fails(env, Begin) && !Fails(env, Lookup) && t.accountId !in db.accounts ==>
      r == Err(Service(InvalidArgument))
    ensures (!Fails(env, Begin) && !Fails(env, Lookup) && t.accountId in db.accounts &&
             db.accounts[t.accountId].userId != requester) ==> r == Err(Service(NotAuthorized))
    ensures (!Fails(env, Begin) && !Fails(env, Lookup) && !Fails(env, ClaimKey) &&
             Owns(db, t.accountId, requester) && HasSettledKey(db, keyId, requester)) ==>
      var stored := db.keys[(keyId, requester)].response;
      && (DecodeTransaction(stored).Some? ==> r == Ok(Applied(DecodeTransaction(stored).value, db)))
      && (DecodeTransaction(stored).None? ==> r == Err(Internal))
    ensures (!Fails(env, Begin) && !Fails(env, Lookup) && !Fails(env, ClaimKey) &&
             Owns(db, t.accountId, requester) && (keyId, requester) !in db.keys && t.amount == 0) ==>
      r == Err(Service(InvalidArgument))
    ensures r.Ok? && HasSettledKey(db, keyId, requester) ==>
      r.value.db == db && db.keys[(keyId, requester)].response == TransactionJson(r.value.value)
    ensures r.Ok? && (keyId, requester) !in db.keys ==>
      forall s | s in db.keys && s.0 == keyId :: s in r.value.db.keys && r.value.db.keys[s].response == TransactionJson(r.value.value)
    ensures r.Ok? && (keyId, requester) !in db.keys && Valid(db) ==>
      var created := t.(transactionId := env.freshId);
      && t.accountId in db.accounts
      && t.amount != 0
      && r.value.value == created
      && env.freshId !in db.transactions
      && r.value.db.transactions == db.transactions[env.freshId := created]
      && r.value.db.accounts == Credited(db.accounts, t.accountId, t.amount)
      && r.value.db.keys.Keys == db.keys.Keys + {(keyId, requester)}
    ensures r.Ok? ==> Records(r.value.db, keyId, requester, TransactionJson(r.value.value))
    ensures r.Ok? && Valid(db) && Settled(db) ==> Valid(r.value.db) && Settled(r.value.db)
    ensures Applicable(db, t, keyId, requester, env) ==> r.Ok?
  {
    if Fails(env, Begin) then Err(Internal)
    else if Fails(env, Lookup) then Err(Classify(env.faults[Lookup]))
    else match AccountById(db, t.accountId)
      case None => Err(Service(InvalidArgument))
      case Some(account) =>
        if account.userId != requester then Err(Service(NotAuthorized))
        else if Fails(env, ClaimKey) then Err(Internal)
        else if (keyId, requester) !in db.keys then RecordFreshTransaction(db, t, keyId, requester, env)
        else
          var key := GetOrClaimIdempotencyKey(db, keyId, requester).key;
          if key.status != Pending then
            match DecodeTransaction(key.response)
            case None => Err(Internal)
            case Some(cached) => Ok(Applied(cached, db))
          else
            RecordTransaction(db, t, keyId, requester, env)
  }

  /** CreateTransaction: one attempt of createTransactionTx, then on success
      a fire-and-forget invalidation of the account's cache entry, which may or
      may not have happened (`invalidated`) by the time anyone reads. */
  function CreateTransaction(st: State, t: Transaction, keyId: Uuid, requester: Uuid, envs: seq<Env>, invalidated: bool): (r: Reply<Transaction>)
    requires |envs| == MaxRetries
    ensures r.attempts == 1
    ensures r.result == OneAttempt(st, CreateTransactionTx(st.db, t, keyId, requester, envs[0])).result
    ensures r.state.db == OneAttempt(st, CreateTransactionTx(st.db, t, keyId, requester, envs[0])).state.db
    ensures r.result.Err? ==> r.state == st
    ensures r.state.cache == if r.result.Ok? && invalidated then st.cache - {t.accountId} else st.cache
    ensures Valid(st.db) && Settled(st.db) ==> Valid(r.state.db) && Settled(r.state.db)
    ensures Applicable(st.db, t, keyId, requester, envs[0]) ==> r.result.Ok?
  {
    var outcomes := seq(MaxRetries, i requires 0 <= i < MaxRetries => CreateTransactionTx(st.db, t, keyId, requester, envs[i]));
    var r := Settle(st, WithRetries(outcomes));
    if r.result.Ok? && invalidated then r.(state := r.state.(cache := r.state.cache - {t.accountId}))
    else r
  }

  // -------------------------------------------- DeleteAccountByAccountNumber

  /** The rest of deleteAccountByAccountNumberTx once the key is claimed as
      PENDING: delete the account (and, by cascade, its transactions) and
      complete the key with "success". */
  function RecordDeletion(claimed: Db, account: Account, keyId: Uuid, requester: Uuid, env: Env): (r: Result<Applied<()>>)
    requires (keyId, requester) in claimed.keys
    ensures r.Err? ==> r.error.Service?
    ensures r.Ok? ==> Records(r.value.db, keyId, requester, Text("success"))
    ensures r.Ok? ==> r.value.db.keys.Keys == claimed.keys.Keys && AccountByNumber(r.value.db, account.accountNumber).None?
    ensures r.Ok? && Valid(claimed) ==> Valid(r.value.db)
    ensures r.Ok? && Valid(claimed) && account.accountId in claimed.accounts && claimed.accounts[account.accountId] == account ==>
      && r.value.db.accounts == claimed.accounts - {account.accountId}
      && forall t | t in claimed.transactions ::
           t in r.value.db.transactions <==> claimed.transactions[t].accountId != account.accountId
    ensures r.Ok? && (forall s | s in claimed.keys && s.0 != keyId :: claimed.keys[s].status == Completed) ==>
      Settled(r.value.db)
  {
    if Fails(env, Delete) then Err(Classify(env.faults[Delete]))
    else if Fails(env, Complete) || Fails(env, Commit) then Err(Internal)
    else
      var deleted := Ledger.DeleteAccountByAccountNumber(claimed, account.accountNumber);
      assert Valid(claimed) && account.accountId in claimed.accounts && claimed.accounts[account.accountId] == account ==>
        WithNumber(claimed, account.accountNumber) == {account.accountId};
      Ok(Applied((), UpdateIdempotencyKey(deleted, keyId, Completed, Text("success"))))
  }

  /** deleteAccountByAccountNumberTx with every failure of the key claim
      reported as InternalServer, as in the other transaction helpers. The
      value is the id of the account deleted, for the cache invalidation; a
      replay deletes nothing. */
  function DeleteAccountTx(db: Db, number: int, keyId: Uuid, requester: Uuid, env: Env): (r: Result<Applied<Option<Uuid>>>)
    ensures r.Err? ==> r.error.Service?
    ensures !Fails(env, Begin) && !Fails(env, Lookup) && AccountByNumber(db, number).None? ==>
      r == Err(Service(InvalidArgument))
    ensures (!Fails(env, Begin) && !Fails(env, Lookup) && AccountByNumber(db, number).Some? &&
             AccountByNumber(db, number).value.userId != requester) ==> r == Err(Service(NotAuthorized))
    ensures (!Fails(env, Begin) && !Fails(env, Lookup) && !Fails(env, ClaimKey) &&
             AccountByNumber(db, number).Some? && AccountByNumber(db, number).value.userId == requester &&
             HasSettledKey(db, keyId, requester)) ==> r == Ok(Applied(None, db))
    ensures r.Ok? && HasSettledKey(db, keyId, requester) ==> r.value.db == db
    ensures r.Ok? && r.value.value.Some? ==> AccountByNumber(r.value.db, number).None?
    ensures r.Ok? && (keyId, requester) !in db.keys && Valid(db) ==>
      && AccountByNumber(db, number).Some?
      && var gone := AccountByNumber(db, number).value.accountId;
      && AccountByNumber(db, number).value.userId == requester
      && r.value.value == Some(gone)
      && r.value.db.accounts == db.accounts - {gone}
      && (forall t | t in db.transactions ::
            t in r.value.db.transactions <==> db.transactions[t].accountId != gone)
      && r.value.db.keys.Keys == db.keys.Keys + {(keyId, requester)}
      && Records(r.value.db, keyId, requester, Text("success"))
    ensures r.Ok? && Valid(db) && Settled(db) ==> Valid(r.value.db) && Settled(r.value.db)
    ensures (env.faults == map[] && AccountByNumber(db, number).Some? &&
             AccountByNumber(db, number).value.userId == requester) ==> r.Ok?
  {
    if Fails(env, Begin) then Err(Internal)
    else if Fails(env, Lookup) then Err(Classify(env.faults[Lookup]))
    else match AccountByNumber(db, number)
      case None => Err(Service(InvalidArgument))
      case Some(account) =>
        if account.userId != requester then Err(Service(NotAuthorized))
        else if Fails(env, ClaimKey) then Err(Internal)
        else
          var claim := GetOrClaimIdempotencyKey(db, keyId, requester);
          if claim.key.status != Pending then Ok(Applied(None, db))
          else
            match RecordDeletion(claim.db, account, keyId, requester, env)
            case Err(e) => Err(e)
            case Ok(done) => Ok(Applied(Some(account.accountId), done.db))
  }

  /** deleteAccountByAccountNumberTx as written: a claim that reports
      `sql.ErrNoRows` is let through with a nil key, the account is deleted,
      and `key.Status = "COMPLETED"` then dereferences the nil key. The panic
      unwinds through the deferred rollback, so the store is unchanged. In
      every other case it behaves as DeleteAccountTx. */
  function DeleteAccountTxAsWritten(db: Db, number: int, keyId: Uuid, requester: Uuid, env: Env): (r: Result<Applied<Option<Uuid>>>)
    ensures r != DeleteAccountTx(db, number, keyId, requester, env) ==>
      Fails(env, ClaimKey) && env.faults[ClaimKey] == NoRows && r.Err?
  {
    if !Fails(env, Begin) && !Fails(env, Lookup) && AccountByNumber(db, number).Some? &&
       AccountByNumber(db, number).value.userId == requester &&
       Fails(env, ClaimKey) && env.faults[ClaimKey] == NoRows
    then
      if Fails(env, Delete) then Err(Classify(env.faults[Delete])) else Err(NilDereference)
    else
      DeleteAccountTx(db, number, keyId, requester, env)
  }

  /** The input that shows it: an owned account, and a key claim that reports
      no rows. */
  lemma ClaimWithoutRowsDereferencesNil(db: Db, number: int, keyId: Uuid, requester: Uuid)
    requires AccountByNumber(db, number).Some? && AccountByNumber(db, number).value.userId == requester
    ensures DeleteAccountTxAsWritten(db, number, keyId, requester, Env(map[ClaimKey := NoRows], 0, 0)) == Err(NilDereference)
    ensures DeleteAccountTx(db, number, keyId, requester, Env(map[ClaimKey := NoRows], 0, 0)) == Err(Internal)
  {
  }

  /** DeleteAccountByAccountNumber: one attempt of the delete helper, then on
      an actual deletion a fire-and-forget invalidation of the cache entry. */
  function DeleteAccountByAccountNumber(st: State, number: int, keyId: Uuid, requester: Uuid, envs: seq<Env>, invalidated: bool): (r: Reply<()>)
    requires |envs| == MaxRetries
    ensures r.attempts == 1
    ensures var tx := DeleteAccountTx(st.db, number, keyId, requester, envs[0]);
      && (tx.Err? ==> r == Reply(Err(tx.error), st, 1))
      && (tx.Ok? ==> r.result == Ok(()) && r.state.db == tx.value.db)
      && (tx.Ok? && tx.value.value.Some? && invalidated ==> r.state.cache == st.cache - {tx.value.value.value})
      && (tx.Ok? && (tx.value.value.None? || !invalidated) ==> r.state.cache == st.cache)
    ensures Valid(st.db) && Settled(st.db) ==> Valid(r.state.db) && Settled(r.state.db)
  {
    var outcomes := seq(MaxRetries, i requires 0 <= i < MaxRetries => DeleteAccountTx(st.db, number, keyId, requester, envs[i]));
    var run := WithRetries(outcomes);
    match run.result
    case Err(e) => Reply(Err(e), st, run.attempts)
    case Ok(applied) =>
      var cache := if applied.value.Some? && invalidated then st.cache - {applied.value.value} else st.cache;
      Reply(Ok(()), State(applied.db, cache), run.attempts)
  }

  // ----------------------------------------------- DeleteIdempotencyKeyByID

  function DeleteIdempotencyKeyTx(db: Db, keyId: Uuid, env: Env): (r: Result<Applied<()>>)
    ensures r.Err? <==> Fails(env, Begin) || Fails(env, Delete) || Fails(env, Commit)
    ensures r.Err? ==> r.error == Internal
    ensures r.Ok? ==> forall s | s in db.keys :: s in r.value.db.keys <==> s.0 != keyId
    ensures r.Ok? ==> r.value.db.accounts == db.accounts && r.value.db.transactions == db.transactions
  {
    if Fails(env, Begin) || Fails(env, Delete) || Fails(env, Commit) then Err(Internal)
    else Ok(Applied((), Ledger.DeleteIdempotencyKeyByID(db, keyId)))
  }

  /** DeleteIdempotencyKeyByID: an internal clean-up without an owner check;
      it removes the key for every user. */
  function DeleteIdempotencyKeyByID(st: State, keyId: Uuid, envs: seq<Env>): (r: Reply<()>)
    requires |envs| == MaxRetries
    ensures r.attempts == 1
    ensures r.result.Ok? <==> !Fails(envs[0], Begin) && !Fails(envs[0], Delete) && !Fails(envs[0], Commit)
    ensures r.result.Err? ==> r.state == st
    ensures r.result.Ok? ==> forall s | s in r.state.db.keys :: s.0 != keyId
    ensures Valid(st.db) && Settled(st.db) ==> Valid(r.state.db) && Settled(r.state.db)
  {
    var outcomes := seq(MaxRetries, i requires 0 <= i < MaxRetries => DeleteIdempotencyKeyTx(st.db, keyId, envs[i]));
    Settle(st, WithRetries(outcomes))
  }

  // ------------------------------------------------------------------ reads

  /** The cache accelerator's behaviour during one read: whether it answers
      at all (an error other than a miss falls back to the store) and
      whether populating it succeeds. */
  datatype CacheEnv = CacheEnv(reachable: bool, writeSucceeds: bool)

  datatype Read<+T> = Read(result: Result<T>, cache: map<Uuid, Account>)

  /** GetAccount, cache-aside: a cached copy is returned after the owner
      check, without consulting the store; on a miss the store is read, and an
      owned account is written back to the cache. */
  function GetAccount(st: State, accountId: Uuid, requester: Uuid, cacheEnv: CacheEnv, fault: Option<StoreError>): (r: Read<Account>)
    ensures r.result.Ok? ==> r.result.value.userId == requester
    ensures cacheEnv.reachable && accountId in st.cache ==>
      && r.cache == st.cache
      && r.result == if st.cache[accountId].userId == requester then Ok(st.cache[accountId]) else Err(Service(NotAuthorized))
    ensures !(cacheEnv.reachable && accountId in st.cache) && fault.None? ==>
      && (accountId !in st.db.accounts ==> r.result == Err(Service(InvalidArgument)))
      && (accountId in st.db.accounts && st.db.accounts[accountId].userId != requester ==> r.result == Err(Service(NotAuthorized)))
      && (Owns(st.db, accountId, requester) ==> r.result == Ok(st.db.accounts[accountId]))
    ensures !(cacheEnv.reachable && accountId in st.cache) ==>
      r.cache == if r.result.Ok? && cacheEnv.writeSucceeds then st.cache[accountId := r.result.value] else st.cache
  {
    if cacheEnv.reachable && accountId in st.cache then
      var cached := st.cache[accountId];
      if cached.userId != requester then Read(Err(Service(NotAuthorized)), st.cache)
      else Read(Ok(cached), st.cache)
    else if fault.Some? then Read(Err(Classify(fault.value)), st.cache)
    else match AccountById(st.db, accountId)
      case None => Read(Err(Service(InvalidArgument)), st.cache)
      case Some(account) =>
        if account.userId != requester then Read(Err(Service(NotAuthorized)), st.cache)
        else if cacheEnv.writeSucceeds then Read(Ok(account), st.cache[accountId := account])
        else Read(Ok(account), st.cache)
  }

  function GetAccountsByUserID(db: Db, userId: Uuid, fault: Option<StoreError>): (r: Result<seq<Account>>)
    ensures r.Err? <==> fault.Some?
    ensures r.Err? ==> r.error == Internal
    ensures r.Ok? ==> forall i | 0 <= i < |r.value| :: r.value[i] in db.accounts.Values && r.value[i].userId == userId
    ensures r.Ok? ==> forall id | id in db.accounts && db.accounts[id].userId == userId :: db.accounts[id] in r.value
    ensures r.Ok? ==> |r.value| == |OwnedBy(db, userId)|
  {
    if fault.Some? then Err(Internal) else Ok(Ledger.GetAccountsByUserID(db, userId))
  }

  function GetAccountByAccountNumber(db: Db, number: int, requester: Uuid, fault: Option<StoreError>): (r: Result<Account>)
    ensures r.Ok? ==> r.value.accountNumber == number && r.value.userId == requester && r.value in db.accounts.Values
    ensures fault.None? ==>
      && (AccountByNumber(db, number).None? <==> r == Err(Service(InvalidArgument)))
      && (AccountByNumber(db, number).Some? && AccountByNumber(db, number).value.userId != requester <==>
            r == Err(Service(NotAuthorized)))
    ensures fault.Some? ==> r == Err(Classify(fault.value))
  {
    if fault.Some? then Err(Classify(fault.value))
    else match AccountByNumber(db, number)
      case None => Err(Service(InvalidArgument))
      case Some(account) =>
        if account.userId != requester then Err(Service(NotAuthorized)) else Ok(account)
  }

  /** GetTransactionsByAccountID: a read-only REPEATABLE READ transaction
      that checks ownership and then lists the account's transactions. */
  function GetTransactionsByAccountID(db: Db, accountId: Uuid, requester: Uuid, env: Env): (r: Result<seq<Transaction>>)
    ensures r.Ok? ==> Owns(db, accountId, requester)
    ensures r.Ok? ==> forall i | 0 <= i < |r.value| :: r.value[i] in db.transactions.Values && r.value[i].accountId == accountId
    ensures r.Ok? ==> forall t | t in db.transactions && db.transactions[t].accountId == accountId :: db.transactions[t] in r.value
    ensures r.Ok? ==> |r.value| == |OfAccount(db, accountId)|
    ensures !Fails(env, Begin) && !Fails(env, Lookup) ==>
      && (accountId !in db.accounts ==> r == Err(Service(InvalidArgument)))
      && (accountId in db.accounts && db.accounts[accountId].userId != requester ==> r == Err(Service(NotAuthorized)))
    ensures env.faults == map[] && Owns(db, accountId, requester) ==> r.Ok?
    ensures r.Err? ==> r.error.Service?
  {
    if Fails(env, Begin) then Err(Internal)
    else if Fails(env, Lookup) then Err(Classify(env.faults[Lookup]))
    else match AccountById(db, accountId)
      case None => Err(Service(InvalidArgument))
      case Some(account) =>
        if account.userId != requester then Err(Service(NotAuthorized))
        else if Fails(env, Select) then Err(Classify(env.faults[Select]))
        else Ok(Ledger.GetTransactionsByAccountID(db, accountId))
  }

  /** ValidateAccountNumber: true exactly for an existing account the
      requester owns; a missing or foreign account is `false` without error. */
  function ValidateAccountNumber(db: Db, number: int, requester: Uuid, fault: Option<StoreError>): (r: Result<bool>)
    ensures fault.None? ==> r.Ok?
    ensures r.Ok? ==> (r.value <==> fault.None? && AccountByNumber(db, number).Some? &&
                                    AccountByNumber(db, number).value.userId == requester)
    ensures r.Err? <==> fault.Some? && fault.value != NoRows
    ensures r.Err? ==> r.error == Internal
  {
    if fault.Some? then
      if fault.value == NoRows then Ok(false) else Err(Internal)
    else match AccountByNumber(db, number)
      case None => Ok(false)
      case Some(account) => Ok(account.userId == requester)
  }

  /** HasSufficientBalance: for the owner only, whether the balance covers
      `amount`. */
  function HasSufficientBalance(db: Db, number: int, amount: int, requester: Uuid, fault: Option<StoreError>): (r: Result<bool>)
    ensures r.Ok? ==> (fault.None? && AccountByNumber(db, number).Some? &&
                       AccountByNumber(db, number).value.userId == requester &&
                       (r.value <==> AccountByNumber(db, number).value.balance >= amount))
    ensures fault.None? && AccountByNumber(db, number).None? ==> r == Err(Service(InvalidArgument))
    ensures fault.None? && AccountByNumber(db, number).Some? && AccountByNumber(db, number).value.userId != requester ==>
      r == Err(Service(NotAuthorized))
    ensures fault.None? && AccountByNumber(db, number).Some? && AccountByNumber(db, number).value.userId == requester ==>
      r == Ok(AccountByNumber(db, number).value.balance >= amount)
    ensures fault.Some? ==> r == Err(Classify(fault.value))
  {
    if fault.Some? then Err(Classify(fault.value))
    else match AccountByNumber(db, number)
      case None => Err(Service(InvalidArgument))
      case Some(account) =>
        if account.userId != requester then Err(Service(NotAuthorized)) else Ok(account.balance >= amount)
  }
}
