/** The auth service (auth/service/auth.go): CreateUser, Login,
    RenewAccessToken and DeleteUser, with their KeyID-scoped idempotency
    keys.

    A call returns its answer and the store it leaves. The store changes only
    when the transaction commits, with one exception: Login writes the
    refresh token through the repository outside its transaction, so that row
    stays even when the transaction later rolls back. */
module AuthService {
  import opened Errors
  import opened Ids
  import opened AuthStore
  import Ledger

  datatype Reply<+T> = Reply(result: Result<T>, db: AuthDb)

  // ------------------------------------------------------------- CreateUser

  /** createUserTx. An email that is already registered is rejected with a
      fresh `errors.New`, before the key is looked at; any failure of that
      lookup lets the call go on. */
  function CreateUserTx(db: AuthDb, email: string, keyId: Uuid, env: Env): (r: Result<Applied<User>>)
    ensures r.Err? ==> r.error == Internal || r.error == Message("user already exists")
    ensures !Fails(env, Begin) && !Fails(env, LookupUser) && UserByEmail(db, email).Some? ==>
      r == Err(Message("user already exists"))
    ensures (!Fails(env, Begin) && !Fails(env, ClaimKey) && UserByEmail(db, email).None? &&
             keyId in db.keys && db.keys[keyId].status == Ledger.Completed) ==>
      && (DecodeUser(db.keys[keyId].response).Some? ==> r == Ok(Applied(DecodeUser(db.keys[keyId].response).value, db)))
      && (DecodeUser(db.keys[keyId].response).None? ==> r == Err(Internal))
    ensures r.Ok? && keyId !in db.keys ==>
      && env.passwordHash.Some?
      && r.value.value == User(env.freshId, email, env.passwordHash.value)
      && r.value.db.users == db.users[env.freshId := r.value.value]
      && r.value.db.tokens == db.tokens
      && r.value.db.keys == db.keys[keyId := AuthKey(keyId, Ledger.Completed, UserJson(r.value.value))]
    ensures r.Ok? && keyId in db.keys && db.keys[keyId].status == Ledger.Completed ==> r.value.db == db
    ensures r.Ok? && Valid(db) && Settled(db) ==> Valid(r.value.db) && Settled(r.value.db)
    ensures (env.faults == map[] && env.passwordHash.Some? && UserByEmail(db, email).None? &&
             keyId !in db.keys && env.freshId !in db.users) ==> r.Ok?
  {
    if Fails(env, Begin) then Err(Internal)
    else if !Fails(env, LookupUser) && UserByEmail(db, email).Some? then Err(Message("user already exists"))
    else if Fails(env, ClaimKey) then Err(Internal)
    else
      var claim := GetOrClaimIdempotencyKey(db, keyId);
      if claim.key.status != Ledger.Pending then
        match DecodeUser(claim.key.response)
        case None => Err(Internal)
        case Some(cached) => Ok(Applied(cached, db))
      else if env.passwordHash.None? || Fails(env, AddUser) then Err(Internal)
      else
        match InsertUser(claim.db, User(env.freshId, email, env.passwordHash.value))
        case Err(_) => Err(Internal)
        case Ok(inserted) =>
          if Fails(env, Complete) || Fails(env, Commit) then Err(Internal)
          else Ok(Applied(inserted.value, UpdateIdempotencyKey(inserted.db, keyId, Ledger.Completed, UserJson(inserted.value))))
  }

  /** CreateUser as written: a unique violation would be UserAlreadyExists,
      but createUserTx never hands one back, so every failure, a taken email
      included, is InternalServer. */
  function CreateUserAsWritten(db: AuthDb, email: string, keyId: Uuid, env: Env): (r: Reply<User>)
    ensures r.result.Err? ==> r.result.error == Internal && r.db == db
    ensures r.result.Ok? <==> CreateUserTx(db, email, keyId, env).Ok?
  {
    match CreateUserTx(db, email, keyId, env)
    case Err(e) => Reply(Err(if IsUniqueViolation(e) then Service(UserAlreadyExists) else Internal), db)
    case Ok(applied) => Reply(Ok(applied.value), applied.db)
  }

  /** CreateUser with the evident intent: a taken email is reported as
      UserAlreadyExists; every other failure is InternalServer. */
  function CreateUser(db: AuthDb, email: string, keyId: Uuid, env: Env): (r: Reply<User>)
    ensures r.result.Err? ==> r.db == db && (r.result.error == Internal || r.result.error == Service(UserAlreadyExists))
    ensures !Fails(env, Begin) && !Fails(env, LookupUser) && UserByEmail(db, email).Some? ==>
      r == Reply(Err(Service(UserAlreadyExists)), db)
    ensures r.result.Ok? <==> CreateUserTx(db, email, keyId, env).Ok?
    ensures r.result.Ok? ==> r.result.value == CreateUserTx(db, email, keyId, env).value.value &&
                             r.db == CreateUserTx(db, email, keyId, env).value.db
  {
    match CreateUserTx(db, email, keyId, env)
    case Err(e) => Reply(Err(if e == Message("user already exists") then Service(UserAlreadyExists) else Internal), db)
    case Ok(applied) => Reply(Ok(applied.value), applied.db)
  }

  /** The input that shows it: an email that is already registered. */
  lemma TakenEmailIsInternal(db: AuthDb, email: string, keyId: Uuid, env: Env)
    requires !Fails(env, Begin) && !Fails(env, LookupUser) && UserByEmail(db, email).Some?
    ensures CreateUserAsWritten(db, email, keyId, env).result == Err(Internal)
    ensures CreateUser(db, email, keyId, env).result == Err(Service(UserAlreadyExists))
  {
  }

  // ------------------------------------------------------------------ Login

  /** Login. `env.passwordMatches` is bcrypt's verdict on the password
      against the stored hash; a mismatch is NotAuthenticated. */
  function Login(db: AuthDb, email: string, keyId: Uuid, now: int, env: Env): (r: Reply<LoginResult>)
    ensures r.result.Err? ==> r.result.error.Service?
    ensures !Fails(env, Begin) && (Fails(env, LookupUser) || UserByEmail(db, email).None?) ==>
      r == Reply(Err(Service(NotAuthenticated)), db)
    ensures (!Fails(env, Begin) && !Fails(env, LookupUser) && UserByEmail(db, email).Some? &&
             !env.passwordMatches) ==> r == Reply(Err(Service(NotAuthenticated)), db)
    ensures r.result.Ok? ==> !Fails(env, LookupUser) && UserByEmail(db, email).Some? && env.passwordMatches
    ensures (!Fails(env, Begin) && !Fails(env, LookupUser) && UserByEmail(db, email).Some? && env.passwordMatches &&
             env.accessToken.Some? && !Fails(env, ClaimKey) && keyId in db.keys && db.keys[keyId].status == Ledger.Completed) ==>
      && (DecodeLogin(db.keys[keyId].response).Some? ==> r == Reply(Ok(DecodeLogin(db.keys[keyId].response).value), db))
      && (DecodeLogin(db.keys[keyId].response).None? ==> r == Reply(Err(Internal), db))
    ensures r.result.Ok? && keyId in db.keys && db.keys[keyId].status == Ledger.Completed ==>
      r.db == db && db.keys[keyId].response == LoginJson(r.result.value)
    ensures r.result.Ok? && keyId !in db.keys ==>
      var user := UserByEmail(db, email).value;
      && env.accessToken.Some? && env.refreshToken.Some?
      && r.result.value.userId == user.userId
      && r.result.value.accessToken == env.accessToken.value.token
      && r.result.value.refreshToken == env.refreshToken.value.token
      && r.db.tokens == db.tokens[env.freshId := RefreshToken(user.userId, env.refreshToken.value.token, now + env.refreshToken.value.duration)]
      && r.db.keys == db.keys[keyId := AuthKey(keyId, Ledger.Completed, LoginJson(r.result.value))]
      && r.db.users == db.users
    ensures r.result.Err? ==> r.db.users == db.users && r.db.keys == db.keys
    ensures r.result.Err? && r.db != db ==>
      env.freshId !in db.tokens && r.db == db.(tokens := r.db.tokens) &&
      (Fails(env, Complete) || Fails(env, Commit))
    ensures Valid(db) && Settled(db) ==> Valid(r.db) && Settled(r.db)
  {
    if Fails(env, Begin) then Reply(Err(Internal), db)
    else if Fails(env, LookupUser) then Reply(Err(Service(NotAuthenticated)), db)
    else match UserByEmail(db, email)
      case None => Reply(Err(Service(NotAuthenticated)), db)
      case Some(user) =>
        if !env.passwordMatches then Reply(Err(Service(NotAuthenticated)), db)
        else if env.accessToken.None? || Fails(env, ClaimKey) then Reply(Err(Internal), db)
        else
          var claim := GetOrClaimIdempotencyKey(db, keyId);
          if claim.key.status != Ledger.Pending then
            match DecodeLogin(claim.key.response)
            case None => Reply(Err(Internal), db)
            case Some(cached) => Reply(Ok(cached), db)
          else if env.refreshToken.None? || Fails(env, AddToken) then Reply(Err(Internal), db)
          else
            var grant := env.refreshToken.value;
            match InsertRefreshToken(claim.db, env.freshId, RefreshToken(user.userId, grant.token, now + grant.duration))
            case Err(_) => Reply(Err(Internal), db)
            case Ok(withToken) =>
              var access := env.accessToken.value;
              var result := LoginResult(access.token, user.userId, access.fingerprint, grant.token, access.duration, grant.duration);
              if Fails(env, Complete) || Fails(env, Commit) then
                Reply(Err(Internal), db.(tokens := withToken.tokens))
              else
                Reply(Ok(result), UpdateIdempotencyKey(withToken, keyId, Ledger.Completed, LoginJson(result)))
  }

  /** Login as written: the result of the bcrypt comparison is dropped (the
      `if` tests the `err` of the user lookup, which is nil by then), so it
      behaves as Login with every comparison succeeding. */
  function LoginAsWritten(db: AuthDb, email: string, keyId: Uuid, now: int, env: Env): (r: Reply<LoginResult>)
    ensures r == Login(db, email, keyId, now, env.(passwordMatches := true))
    ensures env.passwordMatches ==> r == Login(db, email, keyId, now, env)
  {
    Login(db, email, keyId, now, env.(passwordMatches := true))
  }

  /** The input that shows it: a registered email with a wrong password. */
  lemma WrongPasswordAccepted(db: AuthDb, email: string, keyId: Uuid, now: int, env: Env)
    requires env.faults == map[] && env.accessToken.Some? && env.refreshToken.Some? && !env.passwordMatches
    requires UserByEmail(db, email).Some? && keyId !in db.keys && env.freshId !in db.tokens
    ensures LoginAsWritten(db, email, keyId, now, env).result.Ok?
    ensures Login(db, email, keyId, now, env) == Reply(Err(Service(NotAuthenticated)), db)
  {
  }

  // ------------------------------------------------------- RenewAccessToken

  /** RenewAccessToken: four checks outside any transaction, in this order:
      the refresh token exists, the requesting user exists, the token is the
      requester's, and `now` is not after its expiry. Then the key protocol. */
  function RenewAccessToken(db: AuthDb, userId: Uuid, refreshToken: string, keyId: Uuid, now: int, env: Env): (r: Reply<AccessToken>)
    ensures r.result.Err? ==> r.db == db && r.result.error.Service?
    ensures Fails(env, LookupToken) ==>
      r.result == Err(if env.faults[LookupToken] == NoRows then Service(NotAuthorized) else Internal)
    ensures !Fails(env, LookupToken) && TokenByValue(db, refreshToken).None? ==>
      r.result == Err(Service(NotAuthorized))
    ensures (!Fails(env, LookupToken) && TokenByValue(db, refreshToken).Some? &&
             (Fails(env, LookupUser) || userId !in db.users)) ==> r.result == Err(Internal)
    ensures (!Fails(env, LookupToken) && TokenByValue(db, refreshToken).Some? &&
             !Fails(env, LookupUser) && userId in db.users &&
             db.users[userId].userId != TokenByValue(db, refreshToken).value.userId) ==>
      r.result == Err(Service(NotAuthorized))
    ensures (!Fails(env, LookupToken) && TokenByValue(db, refreshToken).Some? &&
             !Fails(env, LookupUser) && userId in db.users &&
             db.users[userId].userId == TokenByValue(db, refreshToken).value.userId &&
             now > TokenByValue(db, refreshToken).value.expiredAt) ==>
      r.result == Err(Service(NotAuthenticated))
    ensures (env.faults == map[] && env.accessToken.Some? && TokenByValue(db, refreshToken).Some? &&
             userId in db.users && db.users[userId].userId == TokenByValue(db, refreshToken).value.userId &&
             keyId !in db.keys) ==>
      (r.result.Ok? <==> now <= TokenByValue(db, refreshToken).value.expiredAt)
    ensures r.result.Ok? ==>
      && TokenByValue(db, refreshToken).Some?
      && userId in db.users && db.users[userId].userId == TokenByValue(db, refreshToken).value.userId
      && now <= TokenByValue(db, refreshToken).value.expiredAt
      && keyId in r.db.keys && r.db.keys[keyId].status == Ledger.Completed
      && r.db.keys[keyId].response == AccessTokenJson(r.result.value)
    ensures r.result.Ok? && keyId in db.keys && db.keys[keyId].status == Ledger.Completed ==>
      r.db == db && db.keys[keyId].response == AccessTokenJson(r.result.value)
    ensures r.result.Ok? && keyId !in db.keys ==>
      && env.accessToken == Some(r.result.value)
      && r.db == db.(keys := db.keys[keyId := AuthKey(keyId, Ledger.Completed, AccessTokenJson(r.result.value))])
    ensures Valid(db) && Settled(db) ==> Valid(r.db) && Settled(r.db)
  {
    if Fails(env, LookupToken) then
      Reply(Err(if env.faults[LookupToken] == NoRows then Service(NotAuthorized) else Internal), db)
    else match TokenByValue(db, refreshToken)
      case None => Reply(Err(Service(NotAuthorized)), db)
      case Some(token) =>
        if Fails(env, LookupUser) || userId !in db.users then Reply(Err(Internal), db)
        else if db.users[userId].userId != token.userId then Reply(Err(Service(NotAuthorized)), db)
        else if now > token.expiredAt then Reply(Err(Service(NotAuthenticated)), db)
        else if Fails(env, Begin) || Fails(env, ClaimKey) then Reply(Err(Internal), db)
        else
          var claim := GetOrClaimIdempotencyKey(db, keyId);
          if claim.key.status != Ledger.Pending then
            assert keyId in db.keys && claim.key == db.keys[keyId] && claim.key.status == Ledger.Completed;
            match DecodeAccessToken(claim.key.response)
            case None => Reply(Err(Internal), db)
            case Some(cached) => Reply(Ok(cached), db)
          else if env.accessToken.None? || Fails(env, Complete) || Fails(env, Commit) then Reply(Err(Internal), db)
          else
            var access := env.accessToken.value;
            Reply(Ok(access), UpdateIdempotencyKey(claim.db, keyId, Ledger.Completed, AccessTokenJson(access)))
  }

  // ------------------------------------------------------------- DeleteUser

  /** DeleteUser: only the user may delete themselves. */
  function DeleteUser(db: AuthDb, userId: Uuid, targetUserId: Uuid, env: Env): (r: Reply<()>)
    ensures userId != targetUserId ==> r == Reply(Err(Service(NotAuthorized)), db)
    ensures r.result.Ok? <==> userId == targetUserId && !Fails(env, DeleteRow)
    ensures r.result.Err? ==> r.db == db
    ensures r.result.Ok? ==> (userId !in r.db.users &&
      (forall id | id in db.users && id != userId :: id in r.db.users && r.db.users[id] == db.users[id]) &&
      (forall id | id in r.db.users :: id in db.users))
    ensures Valid(db) && Settled(db) ==> Valid(r.db) && Settled(r.db)
  {
    if userId != targetUserId then Reply(Err(Service(NotAuthorized)), db)
    else if Fails(env, DeleteRow) then Reply(Err(Internal), db)
    else Reply(Ok(()), DeleteUserRow(db, userId))
  }
}
