/** The account service's store: the accounts, transactions and
    idempotency_keys tables, and the meaning of the queries the account
    repository issues against them (account/db/sqlc/accounts.sql.go and
    account/repository/account.go).

    Each table is a map from its primary key to its row. A query that selects
    several rows returns them in ascending id order (the order `ORDER BY id`
    gives; where the source's SQL has no ORDER BY, the order is this model's
    choice). The repository's conversions between generated row structs and
    model structs copy fields one to one, so one datatype per entity serves
    both layers. */
module Ledger {
  import opened Errors
  import opened Ids

  /** The account service's `model.User`: who asks for an account, and its
      opening balance. */
  datatype User = User(userId: Uuid, balance: int)

  datatype Account = Account(accountId: Uuid, userId: Uuid, balance: int, accountNumber: int)

  datatype Transaction = Transaction(
    transactionId: Uuid,
    accountId: Uuid,
    amount: int,
    transactionType: string,
    status: string,
    transferId: Option<Uuid>)

  datatype KeyStatus = Pending | Completed

  /** A stored response: the JSON text of an account or a transaction, or
      any other text ("" for a fresh claim, "success" for a delete). */
  datatype Payload =
    | AccountJson(account: Account)
    | TransactionJson(transaction: Transaction)
    | Text(text: string)

  /** The decoding of a stored response as a `model.Account`: only an account's
      JSON decodes. `json.Unmarshal` is more lenient than this. */
  function DecodeAccount(p: Payload): (r: Option<Account>)
    ensures r.Some? <==> p.AccountJson?
    ensures r.Some? ==> AccountJson(r.value) == p
  {
    if p.AccountJson? then Some(p.account) else None
  }

  /** The decoding of a stored response as a `model.Transaction`: only a transaction's
      JSON decodes. `json.Unmarshal` is more lenient than this. */
  function DecodeTransaction(p: Payload): (r: Option<Transaction>)
    ensures r.Some? <==> p.TransactionJson?
    ensures r.Some? ==> TransactionJson(r.value) == p
  {
    if p.TransactionJson? then Some(p.transaction) else None
  }

  datatype IdempotencyKey = IdempotencyKey(keyId: Uuid, userId: Uuid, status: KeyStatus, response: Payload)

  /** Account-side idempotency keys are claimed under the pair (KeyID, UserID). */
  type Scope = (Uuid, Uuid)

  datatype Db = Db(
    accounts: map<Uuid, Account>,
    transactions: map<Uuid, Transaction>,
    keys: map<Scope, IdempotencyKey>)

  /** A store operation's result together with the store it leaves. */
  datatype Applied<+T> = Applied(value: T, db: Db)

  /** The constraints the schema enforces: primary keys, the unique account
      number, and the foreign key from a transaction to its account. */
  ghost predicate Valid(db: Db) {
    && (forall id | id in db.accounts :: db.accounts[id].accountId == id)
    && (forall a, b | a in db.accounts && b in db.accounts && a != b ::
          db.accounts[a].accountNumber != db.accounts[b].accountNumber)
    && (forall t | t in db.transactions ::
          db.transactions[t].transactionId == t && db.transactions[t].accountId in db.accounts)
    && (forall s | s in db.keys :: db.keys[s].keyId == s.0 && db.keys[s].userId == s.1)
  }

  /** Every committed idempotency key has completed: a PENDING row exists only
      inside a transaction that either completes it or rolls back. */
  ghost predicate Settled(db: Db) {
    forall s | s in db.keys :: db.keys[s].status == Completed
  }

  // ---------------------------------------------------------------- accounts

  function AccountById(db: Db, id: Uuid): (r: Option<Account>)
    ensures r.Some? <==> id in db.accounts
    ensures r.Some? ==> r.value == db.accounts[id]
  {
    if id in db.accounts then Some(db.accounts[id]) else None
  }

  function WithNumber(db: Db, number: int): (ids: set<Uuid>)
    ensures forall id :: id in ids <==> id in db.accounts && db.accounts[id].accountNumber == number
  {
    set id | id in db.accounts && db.accounts[id].accountNumber == number
  }

  /** `SELECT ... WHERE account_number = $1` read with QueryRow: the first
      matching row, or `sql.ErrNoRows`. */
  function AccountByNumber(db: Db, number: int): (r: Option<Account>)
    ensures r.None? <==> forall id | id in db.accounts :: db.accounts[id].accountNumber != number
    ensures r.Some? ==> r.value.accountNumber == number && r.value in db.accounts.Values
    ensures r.Some? && Valid(db) ==>
      r.value.accountId in db.accounts && db.accounts[r.value.accountId] == r.value &&
      forall id | id in db.accounts && db.accounts[id].accountNumber == number :: id == r.value.accountId
  {
    var ids := WithNumber(db, number);
    if ids == {} then None else Some(db.accounts[Min(ids)])
  }

  /** `INSERT INTO accounts ... RETURNING ...`: fails with a unique violation
      when the id or the account number is taken. */
  function CreateAccount(db: Db, row: Account): (r: Result<Applied<Account>>)
    ensures r.Err? <==> row.accountId in db.accounts || AccountByNumber(db, row.accountNumber).Some?
    ensures r.Err? ==> IsUniqueViolation(r.error)
    ensures r.Ok? ==> r.value.value == row
    ensures r.Ok? ==> r.value.db == db.(accounts := db.accounts[row.accountId := row])
    ensures r.Ok? && Valid(db) ==> Valid(r.value.db)
  {
    if row.accountId in db.accounts || AccountByNumber(db, row.accountNumber).Some? then
      Err(Store(PqError(UniqueViolation)))
    else
      Ok(Applied(row, db.(accounts := db.accounts[row.accountId := row])))
  }

  /** The row the repository's CreateAccount builds: the account id and the
      owner are both the user's id, and the number is freshly generated. */
  function AccountFor(user: User, number: int): (a: Account)
    ensures a.accountId == user.userId && a.userId == user.userId
    ensures a.balance == user.balance && a.accountNumber == number
  {
    Account(user.userId, user.userId, user.balance, number)
  }

  /** The account table after `amount` is added to the balance of account `id`. */
  function Credited(accounts: map<Uuid, Account>, id: Uuid, amount: int): (r: map<Uuid, Account>)
    requires id in accounts
    ensures r.Keys == accounts.Keys
    ensures r[id] == accounts[id].(balance := accounts[id].balance + amount)
    ensures forall other | other in accounts && other != id :: r[other] == accounts[other]
  {
    accounts[id := accounts[id].(balance := accounts[id].balance + amount)]
  }

  function Credit(a: Account, number: int, amount: int): Account {
    if a.accountNumber == number then a.(balance := a.balance + amount) else a
  }

  /** `UPDATE accounts SET balance = balance + $1 WHERE account_number = $2
      RETURNING ...`: every matching row gains `amount`, and the first one is
      returned. No matching row is `sql.ErrNoRows`; a sum outside BIGINT is
      SQLSTATE 22003 and changes nothing. */
  function AddToAccountBalance(db: Db, number: int, amount: int): (r: Result<Applied<Account>>)
    ensures AccountByNumber(db, number).None? ==> r == Err(Store(NoRows))
    ensures r.Err? ==> r.error == Store(NoRows) || r.error == Store(PqError(NumericValueOutOfRange))
    ensures AccountByNumber(db, number).Some? && r.Err? ==> r.error == Store(PqError(NumericValueOutOfRange))
    ensures Valid(db) && AccountByNumber(db, number).Some? ==>
      (r.Ok? <==> IsInt64(AccountByNumber(db, number).value.balance + amount))
    ensures r.Ok? ==>
      var before := AccountByNumber(db, number).value;
      && r.value.value == before.(balance := before.balance + amount)
      && IsInt64(r.value.value.balance)
    ensures r.Ok? && Valid(db) ==>
      var id := r.value.value.accountId;
      && r.value.db.accounts == db.accounts[id := r.value.value]
      && r.value.db.transactions == db.transactions
      && r.value.db.keys == db.keys
      && Valid(r.value.db)
  {
    var ids := WithNumber(db, number);
    if ids == {} then
      Err(Store(NoRows))
    else if exists id | id in ids :: !IsInt64(db.accounts[id].balance + amount) then
      Err(Store(PqError(NumericValueOutOfRange)))
    else
      var updated := map id | id in db.accounts :: Credit(db.accounts[id], number, amount);
      var first := Min(ids);
      assert Valid(db) ==> ids == {first};
      Ok(Applied(updated[first], db.(accounts := updated)))
  }

  /** Adding to the balance by the number of account `id` credits that
      account and nothing else. */
  lemma CreditByNumber(db: Db, id: Uuid, amount: int)
    requires id in db.accounts
    ensures var r := AddToAccountBalance(db, db.accounts[id].accountNumber, amount);
      Valid(db) ==>
        && (r.Ok? <==> IsInt64(db.accounts[id].balance + amount))
        && (r.Err? ==> r.error == Store(PqError(NumericValueOutOfRange)))
        && (r.Ok? ==>
              && r.value.value.accountId == id
              && r.value.db == db.(accounts := Credited(db.accounts, id, amount))
              && Valid(r.value.db))
  {
  }

  /** `DELETE FROM accounts WHERE account_number = $1`, run as an Exec: it
      succeeds whether or not a row matches, and the schema's ON DELETE
      CASCADE removes the deleted accounts' transactions. */
  function DeleteAccountByAccountNumber(db: Db, number: int): (r: Db)
    ensures AccountByNumber(r, number).None?
    ensures forall id | id in db.accounts && db.accounts[id].accountNumber != number ::
      id in r.accounts && r.accounts[id] == db.accounts[id]
    ensures forall id | id in r.accounts :: id in db.accounts
    ensures forall t | t in r.transactions :: t in db.transactions && r.transactions[t] == db.transactions[t]
    ensures forall t | t in db.transactions ::
      t in r.transactions <==> db.transactions[t].accountId !in WithNumber(db, number)
    ensures r.keys == db.keys
    ensures Valid(db) ==> Valid(r)
  {
    var gone := WithNumber(db, number);
    db.(accounts := map id | id in db.accounts && id !in gone :: db.accounts[id],
        transactions := map t | t in db.transactions && db.transactions[t].accountId !in gone :: db.transactions[t])
  }

  /** The rows of `table` under `ids`, in the order of `ids`. */
  function Select<R>(table: map<Uuid, R>, ids: seq<Uuid>): (rows: seq<R>)
    requires forall i | 0 <= i < |ids| :: ids[i] in table
    ensures |rows| == |ids|
    ensures forall i | 0 <= i < |ids| :: rows[i] == table[ids[i]]
  {
    seq(|ids|, i requires 0 <= i < |ids| => table[ids[i]])
  }

  /** Selecting a listing of `s` yields the row of every member of `s`. */
  lemma SelectCovers<R>(table: map<Uuid, R>, ids: seq<Uuid>, s: set<Uuid>)
    requires forall i | 0 <= i < |ids| :: ids[i] in table
    requires forall x | x in s :: x in ids
    ensures forall x | x in s :: table[x] in Select(table, ids)
  {
    var rows := Select(table, ids);
    forall x | x in s
      ensures table[x] in rows
    {
      var k :| 0 <= k < |ids| && ids[k] == x;
      assert rows[k] == table[x];
    }
  }

  function OwnedBy(db: Db, userId: Uuid): (ids: set<Uuid>)
    ensures forall id :: id in ids <==> id in db.accounts && db.accounts[id].userId == userId
  {
    set id | id in db.accounts && db.accounts[id].userId == userId
  }

  /** `SELECT ... FROM accounts WHERE user_id = $1`. */
  function GetAccountsByUserID(db: Db, userId: Uuid): (rows: seq<Account>)
    ensures |rows| == |OwnedBy(db, userId)|
    ensures forall i | 0 <= i < |rows| :: rows[i] in db.accounts.Values && rows[i].userId == userId
    ensures forall id | id in db.accounts && db.accounts[id].userId == userId :: db.accounts[id] in rows
    ensures Valid(db) ==> forall i, j | 0 <= i < j < |rows| :: rows[i].accountId < rows[j].accountId
  {
    var ids := Ascending(OwnedBy(db, userId));
    SelectOwned(db, userId, ids);
    Select(db.accounts, ids)
  }

  lemma SelectOwned(db: Db, userId: Uuid, ids: seq<Uuid>)
    requires forall i | 0 <= i < |ids| :: ids[i] in OwnedBy(db, userId)
    requires forall x | x in OwnedBy(db, userId) :: x in ids
    requires forall i, j | 0 <= i < j < |ids| :: ids[i] < ids[j]
    ensures var rows := Select(db.accounts, ids);
      && (forall i | 0 <= i < |rows| :: rows[i] in db.accounts.Values && rows[i].userId == userId)
      && (forall id | id in db.accounts && db.accounts[id].userId == userId :: db.accounts[id] in rows)
      && (Valid(db) ==> forall i, j | 0 <= i < j < |rows| :: rows[i].accountId < rows[j].accountId)
  {
    SelectCovers(db.accounts, ids, OwnedBy(db, userId));
  }

  /** In a strictly ascending listing of `s`, every element of `s` below an
      element of the first `n` entries is itself among the first `n`. */
  lemma AscendingPrefixClosed(ids: seq<nat>, s: set<nat>, n: nat, i: nat, x: nat)
    requires forall k | 0 <= k < |ids| :: ids[k] in s
    requires forall y | y in s :: y in ids
    requires forall a, b | 0 <= a < b < |ids| :: ids[a] < ids[b]
    requires i < n <= |ids| && x in s && x < ids[i]
    ensures exists k :: 0 <= k < n && ids[k] == x
  {
    var k :| 0 <= k < |ids| && ids[k] == x;
  }

  /** The first `n` entries of an ascending listing of all account ids
      select rows that are ordered and hold every account whose id is below
      one of theirs. */
  lemma LeastRows(db: Db, ids: seq<Uuid>, n: nat)
    requires forall i | 0 <= i < |ids| :: ids[i] in db.accounts
    requires forall x | x in db.accounts :: x in ids
    requires forall i, j | 0 <= i < j < |ids| :: ids[i] < ids[j]
    requires n <= |ids|
    ensures var rows := Select(db.accounts, ids[..n]);
      && (forall i | 0 <= i < |rows| :: rows[i] in db.accounts.Values)
      && (Valid(db) ==>
        && (forall i, j | 0 <= i < j < |rows| :: rows[i].accountId < rows[j].accountId)
        && (forall i, id | 0 <= i < |rows| && id in db.accounts && id < rows[i].accountId ::
              db.accounts[id] in rows))
  {
    var rows := Select(db.accounts, ids[..n]);
    if Valid(db) {
      forall i, id | 0 <= i < |rows| && id in db.accounts && id < rows[i].accountId
        ensures db.accounts[id] in rows
      {
        AscendingPrefixClosed(ids, db.accounts.Keys, n, i, id);
        var k :| 0 <= k < n && ids[k] == id;
        assert rows[k] == db.accounts[id];
      }
    }
  }

  /** `SELECT ... FROM accounts ORDER BY id LIMIT $1`: the `limit` rows with
      the least ids; PostgreSQL rejects a negative LIMIT. */
  function ListAccounts(db: Db, limit: int): (r: Result<seq<Account>>)
    ensures r.Err? <==> limit < 0
    ensures r.Ok? ==> |r.value| == if limit < |db.accounts| then limit else |db.accounts|
    ensures r.Ok? ==> forall i | 0 <= i < |r.value| :: r.value[i] in db.accounts.Values
    ensures r.Ok? && Valid(db) ==>
      && (forall i, j | 0 <= i < j < |r.value| :: r.value[i].accountId < r.value[j].accountId)
      && (forall i, id | 0 <= i < |r.value| && id in db.accounts && id < r.value[i].accountId ::
            db.accounts[id] in r.value)
  {
    if limit < 0 then
      Err(Store(PqError(InvalidRowCountInLimit)))
    else
      var ids := Ascending(db.accounts.Keys);
      assert |ids| == |db.accounts|;
      var n := if limit < |ids| then limit else |ids|;
      LeastRows(db, ids, n);
      Ok(Select(db.accounts, ids[..n]))
  }

  // ------------------------------------------------------------ transactions

  /** `INSERT INTO transactions ...`: fails on a taken id, and on an account
      id with no account (the foreign key). */
  function CreateTransaction(db: Db, row: Transaction): (r: Result<Applied<Transaction>>)
    ensures r.Err? <==> row.transactionId in db.transactions || row.accountId !in db.accounts
    ensures r.Ok? ==> r.value.value == row
    ensures r.Ok? ==> r.value.db == db.(transactions := db.transactions[row.transactionId := row])
    ensures r.Ok? && Valid(db) ==> Valid(r.value.db)
  {
    if row.transactionId in db.transactions then Err(Store(PqError(UniqueViolation)))
    else if row.accountId !in db.accounts then Err(Store(PqError(ForeignKeyViolation)))
    else Ok(Applied(row, db.(transactions := db.transactions[row.transactionId := row])))
  }

  function OfAccount(db: Db, accountId: Uuid): (ids: set<Uuid>)
    ensures forall t :: t in ids <==> t in db.transactions && db.transactions[t].accountId == accountId
  {
    set t | t in db.transactions && db.transactions[t].accountId == accountId
  }

  /** The transactions of one account, each once, in ascending id order. */
  function GetTransactionsByAccountID(db: Db, accountId: Uuid): (rows: seq<Transaction>)
    ensures |rows| == |OfAccount(db, accountId)|
    ensures forall i | 0 <= i < |rows| :: rows[i] in db.transactions.Values && rows[i].accountId == accountId
    ensures forall t | t in db.transactions && db.transactions[t].accountId == accountId ::
      db.transactions[t] in rows
    ensures Valid(db) ==> forall i, j | 0 <= i < j < |rows| :: rows[i].transactionId < rows[j].transactionId
  {
    var ids := Ascending(OfAccount(db, accountId));
    SelectOfAccount(db, accountId, ids);
    Select(db.transactions, ids)
  }

  lemma SelectOfAccount(db: Db, accountId: Uuid, ids: seq<Uuid>)
    requires forall i | 0 <= i < |ids| :: ids[i] in OfAccount(db, accountId)
    requires forall x | x in OfAccount(db, accountId) :: x in ids
    requires forall i, j | 0 <= i < j < |ids| :: ids[i] < ids[j]
    ensures var rows := Select(db.transactions, ids);
      && (forall i | 0 <= i < |rows| :: rows[i] in db.transactions.Values && rows[i].accountId == accountId)
      && (forall t | t in db.transactions && db.transactions[t].accountId == accountId :: db.transactions[t] in rows)
      && (Valid(db) ==> forall i, j | 0 <= i < j < |rows| :: rows[i].transactionId < rows[j].transactionId)
  {
    SelectCovers(db.transactions, ids, OfAccount(db, accountId));
  }

  // -------------------------------------------------------- idempotency keys

  datatype Claim = Claim(key: IdempotencyKey, db: Db)

  /** Insert the key as PENDING, or return the row already there. Inside a
      transaction the insert blocks while another transaction holds the same
      key; sequentially, that other transaction has already committed or
      rolled back, so the key is either present or absent. */
  function GetOrClaimIdempotencyKey(db: Db, keyId: Uuid, userId: Uuid): (r: Claim)
    ensures (keyId, userId) in db.keys ==> r == Claim(db.keys[(keyId, userId)], db)
    ensures (keyId, userId) !in db.keys ==>
      && r.key == IdempotencyKey(keyId, userId, Pending, Text(""))
      && r.db == db.(keys := db.keys[(keyId, userId) := r.key])
    ensures r.db.accounts == db.accounts && r.db.transactions == db.transactions
    ensures r.key == r.db.keys[(keyId, userId)]
    ensures Valid(db) ==> Valid(r.db)
    ensures Settled(db) ==> forall s | s in r.db.keys && s.0 != keyId :: r.db.keys[s].status == Completed
  {
    if (keyId, userId) in db.keys then Claim(db.keys[(keyId, userId)], db)
    else
      var key := IdempotencyKey(keyId, userId, Pending, Text(""));
      Claim(key, db.(keys := db.keys[(keyId, userId) := key]))
  }

  /** `UPDATE idempotency_keys SET status, response_message WHERE key_id = $1`:
      keyed by KeyID alone, so it rewrites that key for every user. */
  function UpdateIdempotencyKey(db: Db, keyId: Uuid, status: KeyStatus, response: Payload): (r: Db)
    ensures r.keys.Keys == db.keys.Keys
    ensures forall s | s in db.keys && s.0 == keyId ::
      r.keys[s] == db.keys[s].(status := status, response := response)
    ensures forall s | s in db.keys && s.0 != keyId :: r.keys[s] == db.keys[s]
    ensures r.accounts == db.accounts && r.transactions == db.transactions
    ensures Valid(db) ==> Valid(r)
    ensures status == Completed && (forall s | s in db.keys && s.0 != keyId :: db.keys[s].status == Completed) ==>
      Settled(r)
  {
    db.(keys := map s | s in db.keys ::
      if s.0 == keyId then db.keys[s].(status := status, response := response) else db.keys[s])
  }

  /** `DELETE FROM idempotency_keys WHERE key_id = $1`. */
  function DeleteIdempotencyKeyByID(db: Db, keyId: Uuid): (r: Db)
    ensures forall s | s in r.keys :: s in db.keys && s.0 != keyId && r.keys[s] == db.keys[s]
    ensures forall s | s in db.keys && s.0 != keyId :: s in r.keys
    ensures r.accounts == db.accounts && r.transactions == db.transactions
    ensures Valid(db) ==> Valid(r)
    ensures Settled(db) ==> Settled(r)
  {
    db.(keys := map s | s in db.keys && s.0 != keyId :: db.keys[s])
  }

  // ------------------------------------------------------------------ lemmas

  /** Inserting the same account twice fails the second time. */
  lemma DuplicateAccountRejected(db: Db, row: Account)
    requires CreateAccount(db, row).Ok?
    ensures CreateAccount(CreateAccount(db, row).value.db, row) == Err(Store(PqError(UniqueViolation)))
  {
  }

  /** After a delete by number, a lookup by that number finds nothing, and
      none of the deleted accounts' transactions remain. */
  lemma DeleteThenLookupFails(db: Db, number: int)
    requires Valid(db)
    ensures var r := DeleteAccountByAccountNumber(db, number);
      && AccountByNumber(r, number).None?
      && forall t | t in r.transactions :: db.accounts[r.transactions[t].accountId].accountNumber != number
  {
    var r := DeleteAccountByAccountNumber(db, number);
    forall t | t in r.transactions
      ensures db.accounts[r.transactions[t].accountId].accountNumber != number
    {
      assert t in db.transactions;
    }
  }

  /** The sum of `amounts`, added up from the front. */
  function Sum(amounts: seq<int>): int {
    if amounts == [] then 0 else Sum(amounts[..|amounts| - 1]) + amounts[|amounts| - 1]
  }

  /** `start` plus the first `k` of `amounts`. */
  function RunningTotal(start: int, amounts: seq<int>, k: nat): int
    requires k <= |amounts|
  {
    start + Sum(amounts[..k])
  }

  /** Every running total of `amounts` added to `start` fits in a BIGINT. */
  predicate PrefixSumsInRange(start: int, amounts: seq<int>) {
    forall k | 0 < k <= |amounts| :: IsInt64(RunningTotal(start, amounts, k))
  }

  /** The adds of `amounts` to the account with `number`, one after another,
      stopping at the first error. */
  function AddAll(db: Db, number: int, amounts: seq<int>): (r: Result<Db>)
  {
    if amounts == [] then Ok(db)
    else match AddAll(db, number, amounts[..|amounts| - 1])
      case Err(e) => Err(e)
      case Ok(mid) =>
        match AddToAccountBalance(mid, number, amounts[|amounts| - 1])
        case Err(e) => Err(e)
        case Ok(a) => Ok(a.db)
  }

  /** The running totals of all but the last element of `amounts` are
      running totals of `amounts` too. */
  lemma PrefixSumsOfInit(start: int, amounts: seq<int>)
    requires amounts != [] && PrefixSumsInRange(start, amounts)
    ensures PrefixSumsInRange(start, amounts[..|amounts| - 1])
  {
    var init := amounts[..|amounts| - 1];
    forall k | 0 < k <= |init|
      ensures IsInt64(RunningTotal(start, init, k))
    {
      assert init[..k] == amounts[..k];
      assert RunningTotal(start, init, k) == RunningTotal(start, amounts, k);
    }
  }

  /** The running totals of `amounts` are those of all but its last element
      and its whole sum. */
  lemma PrefixSumsOfSnoc(start: int, amounts: seq<int>)
    requires amounts != [] && PrefixSumsInRange(start, amounts[..|amounts| - 1])
    requires IsInt64(start + Sum(amounts))
    ensures PrefixSumsInRange(start, amounts)
  {
    var init := amounts[..|amounts| - 1];
    assert amounts[..|amounts|] == amounts;
    assert IsInt64(RunningTotal(start, amounts, |amounts|));
    forall k | 0 < k < |amounts|
      ensures IsInt64(RunningTotal(start, amounts, k))
    {
      assert amounts[..k] == init[..k];
      assert RunningTotal(start, amounts, k) == RunningTotal(start, init, k);
    }
  }

  /** The running totals of `amounts` are in range exactly when those of
      all but its last element are, and so is its whole sum. */
  lemma PrefixSumsStep(start: int, amounts: seq<int>)
    requires amounts != []
    ensures PrefixSumsInRange(start, amounts) <==>
      PrefixSumsInRange(start, amounts[..|amounts| - 1]) && IsInt64(start + Sum(amounts))
  {
    if PrefixSumsInRange(start, amounts) {
      PrefixSumsOfInit(start, amounts);
      assert RunningTotal(start, amounts, |amounts|) == start + Sum(amounts) by {
        assert amounts[..|amounts|] == amounts;
      }
    }
    if PrefixSumsInRange(start, amounts[..|amounts| - 1]) && IsInt64(start + Sum(amounts)) {
      PrefixSumsOfSnoc(start, amounts);
    }
  }

  /** One add to an existing account in a valid store: it succeeds exactly
      when the new balance fits, and then moves that balance alone. */
  lemma AddStep(db: Db, number: int, amount: int)
    requires Valid(db) && AccountByNumber(db, number).Some?
    ensures var a := AddToAccountBalance(db, number, amount);
      && (a.Ok? <==> IsInt64(AccountByNumber(db, number).value.balance + amount))
      && (a.Ok? ==>
            && Valid(a.value.db)
            && AccountByNumber(a.value.db, number).Some?
            && AccountByNumber(a.value.db, number).value.balance == AccountByNumber(db, number).value.balance + amount
            && a.value.db.accounts.Keys == db.accounts.Keys
            && forall id | id in db.accounts && db.accounts[id].accountNumber != number ::
                 a.value.db.accounts[id] == db.accounts[id])
  {
    var a := AddToAccountBalance(db, number, amount);
    if a.Ok? {
      var id := a.value.value.accountId;
      assert AccountByNumber(a.value.db, number).value == a.value.db.accounts[id];
    }
  }

  /** Adding several amounts to an existing account one after another
      succeeds exactly when every running balance fits in a BIGINT, and then
      raises the balance by their sum and leaves every other account alone:
      ten adds of 1000 raise the balance by 10000. */
  lemma {:induction false} AddsAccumulate(db: Db, number: int, amounts: seq<int>)
    requires Valid(db)
    requires AccountByNumber(db, number).Some?
    ensures AddAll(db, number, amounts).Ok? <==> PrefixSumsInRange(AccountByNumber(db, number).value.balance, amounts)
    ensures AddAll(db, number, amounts).Ok? ==>
      var r := AddAll(db, number, amounts).value;
      && Valid(r)
      && AccountByNumber(r, number).Some?
      && AccountByNumber(r, number).value.balance == AccountByNumber(db, number).value.balance + Sum(amounts)
      && r.accounts.Keys == db.accounts.Keys
      && forall id | id in db.accounts && db.accounts[id].accountNumber != number :: r.accounts[id] == db.accounts[id]
  {
    if amounts != [] {
      var start := AccountByNumber(db, number).value.balance;
      var n := |amounts| - 1;
      var init := amounts[..n];
      AddsAccumulate(db, number, init);
      PrefixSumsStep(start, amounts);
      match AddAll(db, number, init)
      case Err(_) =>
      case Ok(mid) =>
        AddStep(mid, number, amounts[n]);
    }
  }
}
