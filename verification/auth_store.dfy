/** The auth service's store (auth/repository/auth.go): users, refresh
    tokens and idempotency keys, and the repository's own transactional
    CreateUserTx.

    Unlike the account store, an auth idempotency key is identified by its
    KeyID alone: there is no user in its scope. */
module AuthStore {
  import opened Errors
  import opened Ids
  import Ledger

  type KeyStatus = Ledger.KeyStatus

  /** A user as the repository returns it: convertToModelUser puts the stored
      password hash in `password`. */
  datatype User = User(userId: Uuid, email: string, password: string)

  datatype RefreshToken = RefreshToken(userId: Uuid, token: string, expiredAt: int)

  datatype AccessToken = AccessToken(token: string, fingerprint: string, duration: int)

  datatype LoginResult = LoginResult(
    accessToken: string,
    userId: Uuid,
    fingerprint: string,
    refreshToken: string,
    accessTokenDuration: int,
    refreshTokenDuration: int)

  /** The JSON an auth key's `response_message` holds. */
  datatype Payload =
    | UserJson(user: User)
    | LoginJson(login: LoginResult)
    | AccessTokenJson(access: AccessToken)
    | Text(text: string)

  /** The decoding of a stored response as a `model.User`: only a user's
      JSON decodes. `json.Unmarshal` is more lenient than this. */
  function DecodeUser(p: Payload): (r: Option<User>)
    ensures r.Some? <==> p.UserJson?
    ensures r.Some? ==> UserJson(r.value) == p
  {
    if p.UserJson? then Some(p.user) else None
  }

  /** The decoding of a stored response as a `model.LoginResult`: only a login result's
      JSON decodes. `json.Unmarshal` is more lenient than this. */
  function DecodeLogin(p: Payload): (r: Option<LoginResult>)
    ensures r.Some? <==> p.LoginJson?
    ensures r.Some? ==> LoginJson(r.value) == p
  {
    if p.LoginJson? then Some(p.login) else None
  }

  /** The decoding of a stored response as a `model.AccessToken`: only an access token's
      JSON decodes. `json.Unmarshal` is more lenient than this. */
  function DecodeAccessToken(p: Payload): (r: Option<AccessToken>)
    ensures r.Some? <==> p.AccessTokenJson?
    ensures r.Some? ==> AccessTokenJson(r.value) == p
  {
    if p.AccessTokenJson? then Some(p.access) else None
  }

  datatype AuthKey = AuthKey(keyId: Uuid, status: KeyStatus, response: Payload)

  datatype AuthDb = AuthDb(
    users: map<Uuid, User>,
    tokens: map<Uuid, RefreshToken>,
    keys: map<Uuid, AuthKey>)

  datatype Applied<+T> = Applied(value: T, db: AuthDb)

  /** Primary keys and the unique email. */
  ghost predicate Valid(db: AuthDb) {
    && (forall id | id in db.users :: db.users[id].userId == id)
    && (forall a, b | a in db.users && b in db.users && a != b :: db.users[a].email != db.users[b].email)
    && (forall k | k in db.keys :: db.keys[k].keyId == k)
  }

  ghost predicate Settled(db: AuthDb) {
    forall k | k in db.keys :: db.keys[k].status == Ledger.Completed
  }

  /** The store calls that can fail for reasons the model does not see. */
  datatype Step = Begin | LookupUser | LookupToken | ClaimKey | AddUser | AddToken | DeleteRow | Complete | Commit

  /** A refresh token as utils.RandomRefreshToken hands it out. */
  datatype RefreshGrant = RefreshGrant(token: string, duration: int)

  /** Everything a call depends on besides the store: which store calls
      fail, the id uuid.New() returns, the outcome of bcrypt hashing (None is
      an error) and of bcrypt's password comparison, and the tokens the token
      generators return (None is an error). */
  datatype Env = Env(
    faults: map<Step, StoreError>,
    freshId: Uuid,
    passwordHash: Option<string>,
    passwordMatches: bool,
    accessToken: Option<AccessToken>,
    refreshToken: Option<RefreshGrant>)

  predicate Fails(env: Env, step: Step) {
    step in env.faults
  }

  // ------------------------------------------------------------------ users

  function WithEmail(db: AuthDb, email: string): (ids: set<Uuid>)
    ensures forall id :: id in ids <==> id in db.users && db.users[id].email == email
  {
    set id | id in db.users && db.users[id].email == email
  }

  /** `SELECT ... FROM users WHERE email = $1`. */
  function UserByEmail(db: AuthDb, email: string): (r: Option<User>)
    ensures r.None? <==> forall id | id in db.users :: db.users[id].email != email
    ensures r.Some? ==> r.value.email == email && r.value in db.users.Values
    ensures r.Some? && Valid(db) ==> r.value.userId in db.users && db.users[r.value.userId] == r.value
  {
    var ids := WithEmail(db, email);
    if ids == {} then None else Some(db.users[Min(ids)])
  }

  /** `INSERT INTO users`: the id and the email are unique. */
  function InsertUser(db: AuthDb, row: User): (r: Result<Applied<User>>)
    ensures r.Err? <==> row.userId in db.users || UserByEmail(db, row.email).Some?
    ensures r.Err? ==> IsUniqueViolation(r.error)
    ensures r.Ok? ==> r.value == Applied(row, db.(users := db.users[row.userId := row]))
    ensures r.Ok? && Valid(db) ==> Valid(r.value.db)
  {
    if row.userId in db.users || UserByEmail(db, row.email).Some? then Err(Store(PqError(UniqueViolation)))
    else Ok(Applied(row, db.(users := db.users[row.userId := row])))
  }

  /** `DELETE FROM users WHERE id = $1`, an Exec that succeeds whether or not
      the row exists. */
  function DeleteUserRow(db: AuthDb, userId: Uuid): (r: AuthDb)
    ensures userId !in r.users
    ensures forall id | id in db.users && id != userId :: id in r.users && r.users[id] == db.users[id]
    ensures forall id | id in r.users :: id in db.users
    ensures r.tokens == db.tokens && r.keys == db.keys
    ensures Valid(db) ==> Valid(r)
  {
    db.(users := db.users - {userId})
  }

  // --------------------------------------------------------- refresh tokens

  function WithToken(db: AuthDb, token: string): (ids: set<Uuid>)
    ensures forall id :: id in ids <==> id in db.tokens && db.tokens[id].token == token
  {
    set id | id in db.tokens && db.tokens[id].token == token
  }

  /** `SELECT ... FROM refresh_tokens WHERE token = $1`. */
  function TokenByValue(db: AuthDb, token: string): (r: Option<RefreshToken>)
    ensures r.None? <==> forall id | id in db.tokens :: db.tokens[id].token != token
    ensures r.Some? ==> r.value.token == token && r.value in db.tokens.Values
  {
    var ids := WithToken(db, token);
    if ids == {} then None else Some(db.tokens[Min(ids)])
  }

  /** `INSERT INTO refresh_tokens` under a fresh id. */
  function InsertRefreshToken(db: AuthDb, id: Uuid, row: RefreshToken): (r: Result<AuthDb>)
    ensures r.Err? <==> id in db.tokens
    ensures r.Err? ==> IsUniqueViolation(r.error)
    ensures r.Ok? ==> r.value == db.(tokens := db.tokens[id := row])
  {
    if id in db.tokens then Err(Store(PqError(UniqueViolation)))
    else Ok(db.(tokens := db.tokens[id := row]))
  }

  // ------------------------------------------------------- idempotency keys

  datatype Claim = Claim(key: AuthKey, db: AuthDb)

  /** Insert the key as PENDING, or return the row already there, looked up
      by KeyID alone. */
  function GetOrClaimIdempotencyKey(db: AuthDb, keyId: Uuid): (r: Claim)
    ensures keyId in db.keys ==> r == Claim(db.keys[keyId], db)
    ensures keyId !in db.keys ==>
      && r.key == AuthKey(keyId, Ledger.Pending, Text(""))
      && r.db == db.(keys := db.keys[keyId := r.key])
    ensures r.db.users == db.users && r.db.tokens == db.tokens
    ensures Valid(db) ==> Valid(r.db)
  {
    if keyId in db.keys then Claim(db.keys[keyId], db)
    else
      var key := AuthKey(keyId, Ledger.Pending, Text(""));
      Claim(key, db.(keys := db.keys[keyId := key]))
  }

  /** `UPDATE idempotency_keys SET status, response_message WHERE key_id = $1`:
      the key's row now holds `status` and `response`; every other row, and a
      store without the key, is left as it was. */
  function UpdateIdempotencyKey(db: AuthDb, keyId: Uuid, status: KeyStatus, response: Payload): (r: AuthDb)
    ensures keyId in db.keys ==> r.keys.Keys == db.keys.Keys && r.keys[keyId].status == status && r.keys[keyId].response == response
    ensures forall k | k in db.keys && k != keyId :: k in r.keys && r.keys[k] == db.keys[k]
    ensures keyId !in db.keys ==> r == db
    ensures r.users == db.users && r.tokens == db.tokens
    ensures Valid(db) ==> Valid(r)
    ensures status == Ledger.Completed && (forall k | k in db.keys && k != keyId :: db.keys[k].status == Ledger.Completed) ==>
      Settled(r)
  {
    if keyId in db.keys then db.(keys := db.keys[keyId := db.keys[keyId].(status := status, response := response)])
    else db
  }

  // ------------------------------------------------------ repository execTx

  /** execTx: begin, run `fn` on the transaction, commit. The store moves to
      `fn`'s store exactly when begin, `fn` and commit all succeed; otherwise
      the first error is returned and the store is rolled back. */
  function ExecTx<T>(db: AuthDb, begin: Option<StoreError>, fn: AuthDb -> Result<Applied<T>>, commit: Option<StoreError>): (r: Result<Applied<T>>)
    ensures r.Ok? <==> begin.None? && fn(db).Ok? && commit.None?
    ensures r.Ok? ==> r == fn(db)
    ensures begin.Some? ==> r == Err(Store(begin.value))
    ensures begin.None? && fn(db).Err? ==> r == fn(db)
    ensures begin.None? && fn(db).Ok? && commit.Some? ==> r == Err(Store(commit.value))
  {
    if begin.Some? then Err(Store(begin.value))
    else
      match fn(db)
      case Err(e) => Err(e)
      case Ok(applied) => if commit.Some? then Err(Store(commit.value)) else Ok(applied)
  }

  function FaultOf(env: Env, step: Step): (f: Option<StoreError>)
    ensures f.Some? <==> Fails(env, step)
    ensures f.Some? ==> f.value == env.faults[step]
  {
    if Fails(env, step) then Some(env.faults[step]) else None
  }

  /** The insert half of the repository's CreateUserTx: hash, insert under a
      fresh id, and answer with the email alone (no id, empty password). */
  function InsertNewUser(db: AuthDb, email: string, env: Env): (r: Result<Applied<User>>)
    ensures r.Ok? ==> r.value.value == User(NilUuid, email, "")
    ensures r.Ok? ==> (env.passwordHash.Some? &&
                       r.value.db == db.(users := db.users[env.freshId := User(env.freshId, email, env.passwordHash.value)]))
    ensures r.Ok? && Valid(db) ==> Valid(r.value.db)
    ensures (env.passwordHash.Some? && !Fails(env, AddUser) &&
             env.freshId !in db.users && UserByEmail(db, email).None?) ==> r.Ok?
  {
    if env.passwordHash.None? then Err(Library)
    else if Fails(env, AddUser) then Err(Store(env.faults[AddUser]))
    else
      match InsertUser(db, User(env.freshId, email, env.passwordHash.value))
      case Err(e) => Err(e)
      case Ok(inserted) => Ok(Applied(User(NilUuid, email, ""), inserted.db))
  }

  /** The function the repository's CreateUserTx runs inside execTx, as
      written: an existing email is "user already exists", but a lookup that
      finds no row also returns its `sql.ErrNoRows`, so the insert is only
      reached when the lookup failed for some other reason. */
  function CreateUserStepAsWritten(db: AuthDb, email: string, env: Env): (r: Result<Applied<User>>)
    ensures !Fails(env, LookupUser) && UserByEmail(db, email).Some? ==> r == Err(Message("user already exists"))
    ensures !Fails(env, LookupUser) && UserByEmail(db, email).None? ==> r == Err(Store(NoRows))
    ensures r.Ok? ==> Fails(env, LookupUser) && env.faults[LookupUser] != NoRows
  {
    if !Fails(env, LookupUser) && UserByEmail(db, email).Some? then Err(Message("user already exists"))
    else if !Fails(env, LookupUser) || env.faults[LookupUser] == NoRows then Err(Store(NoRows))
    else InsertNewUser(db, email, env)
  }

  /** The same with the evident intent: no row means the email is free and
      the user is inserted; any other lookup error is returned. */
  function CreateUserStep(db: AuthDb, email: string, env: Env): (r: Result<Applied<User>>)
    ensures !Fails(env, LookupUser) && UserByEmail(db, email).Some? ==> r == Err(Message("user already exists"))
    ensures Fails(env, LookupUser) && env.faults[LookupUser] != NoRows ==> r == Err(Store(env.faults[LookupUser]))
    ensures r.Ok? ==> UserByEmail(db, email).None? && r.value.value == User(NilUuid, email, "")
    ensures r.Ok? && Valid(db) ==> Valid(r.value.db) && UserByEmail(r.value.db, email).Some?
  {
    if !Fails(env, LookupUser) && UserByEmail(db, email).Some? then Err(Message("user already exists"))
    else if Fails(env, LookupUser) && env.faults[LookupUser] != NoRows then Err(Store(env.faults[LookupUser]))
    else if UserByEmail(db, email).Some? then Err(Message("user already exists"))
    else
      var r := InsertNewUser(db, email, env);
      assert r.Ok? ==> env.freshId in r.value.db.users && r.value.db.users[env.freshId].email == email;
      r
  }

  /** The repository's CreateUserTx as written. */
  function CreateUserTxAsWritten(db: AuthDb, email: string, env: Env): (r: Result<Applied<User>>)
    ensures r.Ok? ==> Fails(env, LookupUser) && env.faults[LookupUser] != NoRows
    ensures r.Ok? ==> r.value.value == User(NilUuid, email, "")
  {
    ExecTx(db, FaultOf(env, Begin), (d: AuthDb) => CreateUserStepAsWritten(d, email, env), FaultOf(env, Commit))
  }

  /** The repository's CreateUserTx as intended. */
  function CreateUserTx(db: AuthDb, email: string, env: Env): (r: Result<Applied<User>>)
    ensures r.Ok? ==> UserByEmail(db, email).None? && r.value.value == User(NilUuid, email, "")
    ensures r.Ok? && Valid(db) ==> Valid(r.value.db) && UserByEmail(r.value.db, email).Some?
    ensures (env.faults == map[] && env.passwordHash.Some? && env.freshId !in db.users &&
             UserByEmail(db, email).None?) ==> r.Ok?
  {
    ExecTx(db, FaultOf(env, Begin), (d: AuthDb) => CreateUserStep(d, email, env), FaultOf(env, Commit))
  }

  /** The input that shows it: a store without the email and no failures.
      As written the registration is refused with `sql.ErrNoRows`; as
      intended the user is inserted. */
  lemma NewEmailRefused(db: AuthDb, email: string, env: Env)
    requires env.faults == map[] && env.passwordHash.Some? && env.freshId !in db.users
    requires UserByEmail(db, email).None?
    ensures CreateUserTxAsWritten(db, email, env) == Err(Store(NoRows))
    ensures CreateUserTx(db, email, env).Ok?
  {
  }
}
