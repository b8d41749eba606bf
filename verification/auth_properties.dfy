/** Properties of the auth service across several calls. */
module AuthProperties {
  import opened Errors
  import opened Ids
  import opened AuthStore
  import opened AuthService
  import Ledger

  /** The email check comes before the key check, so repeating a CreateUser
      that went through never answers with the stored user: the email is now
      taken. Nothing changes. */
  lemma CreateUserReplayNotCached(db: AuthDb, email: string, keyId: Uuid, env: Env, retryEnv: Env)
    requires Valid(db) && keyId !in db.keys
    requires AuthService.CreateUser(db, email, keyId, env).result.Ok?
    requires !Fails(retryEnv, Begin) && !Fails(retryEnv, LookupUser)
    ensures var first := AuthService.CreateUser(db, email, keyId, env);
      && keyId in first.db.keys && first.db.keys[keyId].response == UserJson(first.result.value)
      && AuthService.CreateUser(first.db, email, keyId, retryEnv) == Reply(Err(Service(UserAlreadyExists)), first.db)
      && CreateUserAsWritten(first.db, email, keyId, retryEnv) == Reply(Err(Internal), first.db)
  {
    var first := AuthService.CreateUser(db, email, keyId, env);
    var created := AuthService.CreateUserTx(db, email, keyId, env).value;
    assert created.db.users[env.freshId].email == email;
    assert UserByEmail(first.db, email).Some?;
  }

  /** A Login whose key completion fails answers InternalServer, yet the
      refresh token it issued stays in the store. */
  lemma RefreshTokenOutlivesRollback(db: AuthDb, email: string, keyId: Uuid, now: int, env: Env)
    requires env.faults == map[Complete := DriverError]
    requires env.passwordMatches && env.accessToken.Some? && env.refreshToken.Some?
    requires UserByEmail(db, email).Some? && keyId !in db.keys && env.freshId !in db.tokens
    ensures var r := Login(db, email, keyId, now, env);
      && r.result == Err(Internal)
      && env.freshId in r.db.tokens
      && r.db.tokens[env.freshId] == RefreshToken(UserByEmail(db, email).value.userId, env.refreshToken.value.token, now + env.refreshToken.value.duration)
      && r.db.keys == db.keys
  {
  }

  /** Auth keys carry no user: a second user who logs in with a KeyID the
      first user's login completed is answered with the first user's login
      result, tokens included, and no token is issued for them. */
  lemma ForeignLoginReplay(db: AuthDb, email: string, otherEmail: string, keyId: Uuid, now: int, env: Env, otherEnv: Env)
    requires Valid(db) && keyId !in db.keys
    requires Login(db, email, keyId, now, env).result.Ok?
    requires UserByEmail(db, otherEmail).Some? && UserByEmail(db, otherEmail) != UserByEmail(db, email)
    requires otherEnv.faults == map[] && otherEnv.passwordMatches && otherEnv.accessToken.Some?
    ensures var first := Login(db, email, keyId, now, env);
      var second := Login(first.db, otherEmail, keyId, now, otherEnv);
      && second == Reply(first.result, first.db)
      && second.result.value.userId == UserByEmail(db, email).value.userId
      && second.result.value.userId != UserByEmail(db, otherEmail).value.userId
  {
    var first := Login(db, email, keyId, now, env);
    assert first.db.users == db.users;
    assert UserByEmail(first.db, otherEmail) == UserByEmail(db, otherEmail);
  }

  /** A RenewAccessToken repeated with the same key answers the access token
      of the first call, whatever the generator would return now, and changes
      nothing. */
  lemma RenewReplaysOriginal(db: AuthDb, userId: Uuid, refreshToken: string, keyId: Uuid, now: int, env: Env, retryEnv: Env)
    requires keyId !in db.keys
    requires RenewAccessToken(db, userId, refreshToken, keyId, now, env).result.Ok?
    requires retryEnv.faults == map[]
    ensures var first := RenewAccessToken(db, userId, refreshToken, keyId, now, env);
      RenewAccessToken(first.db, userId, refreshToken, keyId, now, retryEnv) == first
  {
    var first := RenewAccessToken(db, userId, refreshToken, keyId, now, env);
    assert first.db.tokens == db.tokens && first.db.users == db.users;
    assert TokenByValue(first.db, refreshToken) == TokenByValue(db, refreshToken);
  }

  /** An expired refresh token is refused however often it is presented,
      and only from the instant after its expiry on. */
  lemma ExpiryIsStrict(db: AuthDb, userId: Uuid, refreshToken: string, keyId: Uuid, env: Env)
    requires !Fails(env, LookupToken) && !Fails(env, LookupUser) && env.faults == map[] && env.accessToken.Some?
    requires TokenByValue(db, refreshToken).Some? && userId in db.users
    requires db.users[userId].userId == TokenByValue(db, refreshToken).value.userId
    requires keyId !in db.keys
    ensures var expiry := TokenByValue(db, refreshToken).value.expiredAt;
      && RenewAccessToken(db, userId, refreshToken, keyId, expiry, env).result.Ok?
      && RenewAccessToken(db, userId, refreshToken, keyId, expiry + 1, env).result == Err(Service(NotAuthenticated))
  {
  }
}
