/** The session lifecycle (service/AuthService.java): login issues an access token and
    a refresh token, refresh rotates the refresh token, logout revokes it and the
    cleanup sweeps expired ones. Each call is one atomic step over the token store;
    the clock reading `now` and the freshly generated refresh value are parameters. */
module Auth {
  import opened Wrappers
  import opened Users
  import opened RefreshTokenEntity
  import opened RefreshTokenStore
  import opened Jwt

  /** Lifetime of a refresh token, in days. */
  const RefreshTokenDays: int := 7
  /** The `expiresIn` reported for an access token, in seconds (30 minutes). */
  const AccessTokenSeconds: int := 1800
  const BearerType: string := "Bearer"

  const BadPasswordMessage: string := "Invalid email or password"
  const DisabledMessage: string := "Account is disabled"
  const UnknownTokenMessage: string := "Invalid refresh token"
  const ExpiredTokenMessage: string := "Refresh token has expired"

  datatype LoginResponse = LoginResponse(accessToken: string, refreshToken: string, tokenType: string, expiresIn: int)

  /** The exceptions a session operation raises: the user lookup's own
      UserNotFoundException, InvalidCredentialsException and InvalidTokenException
      (the last two with their messages). */
  datatype AuthError =
    | UserLookupFailed(cause: UserError)
    | InvalidCredentials(message: string)
    | InvalidToken(message: string)

  /** Every token row points at a stored user. */
  ghost predicate OwnersStored(rows: seq<TokenRow>, users: seq<User>)
  {
    forall r :: r in rows ==> UserWithId(users, r.user).Some?
  }

  /** A store whose rows were already there, or are one new row for a stored user,
      keeps every owner stored. */
  lemma OwnersStayStored(before: seq<TokenRow>, after: seq<TokenRow>, row: TokenRow, users: seq<User>)
    requires OwnersStored(before, users) && UserWithId(users, row.user).Some?
    requires forall x :: x in after ==> x in before || x == row
    ensures OwnersStored(after, users)
  {
  }

  class AuthService {
    const userService: UserService
    const tokenRepository: RefreshTokenRepository
    const jwt: JwtUtil

    constructor (userService: UserService, tokenRepository: RefreshTokenRepository, jwt: JwtUtil)
      ensures this.userService == userService && this.tokenRepository == tokenRepository && this.jwt == jwt
    {
      this.userService := userService;
      this.tokenRepository := tokenRepository;
      this.jwt := jwt;
    }

    /** The store is well formed, no user owns two refresh tokens, and every token
        belongs to a stored user. */
    ghost predicate Valid()
      reads userService.repo, tokenRepository
    {
      && userService.repo.Valid()
      && tokenRepository.Valid()
      && OneTokenPerUser(tokenRepository.rows)
      && OwnersStored(tokenRepository.rows, userService.repo.users)
    }

    /** The gate of `login`: the account the credentials open, or the exception. The
        lookup runs first, then the password check, then the enabled check. */
    function CheckCredentials(email: string, password: string): (r: Result<User, AuthError>)
      reads userService.repo
      ensures r == Failure(UserLookupFailed(UserNotFoundByEmail(email))) <==>
        forall u :: u in userService.repo.users ==> u.email != email
      ensures r == Failure(InvalidCredentials(BadPasswordMessage)) <==>
        && userService.FindByEmail(email).Success?
        && !userService.encoder.matches(password, userService.FindByEmail(email).value.password)
      ensures r == Failure(InvalidCredentials(DisabledMessage)) <==>
        && userService.FindByEmail(email).Success?
        && userService.encoder.matches(password, userService.FindByEmail(email).value.password)
        && !userService.FindByEmail(email).value.enabled
      ensures r.Success? ==>
        && r.value in userService.repo.users && r.value.email == email && r.value.enabled
        && userService.encoder.matches(password, r.value.password)
    {
      match userService.FindByEmail(email)
      case Failure(e) => Failure(UserLookupFailed(e))
      case Success(user) =>
        if !userService.ValidatePassword(user, password) then Failure(InvalidCredentials(BadPasswordMessage))
        else if !user.enabled then Failure(InvalidCredentials(DisabledMessage))
        else Success(user)
    }

    /** The stored user a token row points at. */
    function Owner(row: TokenRow): (u: User)
      reads userService.repo, tokenRepository
      requires Valid() && row in tokenRepository.rows
      ensures u in userService.repo.users && u.id == row.user
    {
      UserWithId(userService.repo.users, row.user).value
    }

    /** The `new RefreshToken(...)` and `refreshTokenRepository.save` shared by login
        and refresh: a token for the stored user `owner` that expires seven days after
        `now`, appended under a fresh id. */
    method SaveNewToken(value: string, owner: UserId, now: Instant) returns (saved: TokenRow)
      requires tokenRepository.Valid() && value !in Values(tokenRepository.rows)
      requires OwnersStored(tokenRepository.rows, userService.repo.users)
      requires UserWithId(userService.repo.users, owner).Some?
      modifies tokenRepository
      ensures tokenRepository.Valid()
      ensures OwnersStored(tokenRepository.rows, userService.repo.users)
      ensures saved == TokenRow(old(tokenRepository.nextId), value, owner, PlusDays(now, RefreshTokenDays))
      ensures tokenRepository.rows == old(tokenRepository.rows) + [saved]
    {
      var before := tokenRepository.rows;
      var entity := new RefreshToken(value, owner, PlusDays(now, RefreshTokenDays));
      saved := tokenRepository.Save(entity);
      OwnersStayStored(before, tokenRepository.rows, saved, userService.repo.users);
    }

    /** `login`. A rejected login mints nothing and leaves the store as it was; an
        accepted one deletes every earlier refresh token of the user and stores one new
        token for them that expires seven days after `now`. */
    method Login(email: string, password: string, generated: string, now: Instant)
      returns (r: Result<LoginResponse, AuthError>)
      requires Valid()
      requires generated !in Values(tokenRepository.rows)
      modifies tokenRepository
      ensures Valid()
      ensures CheckCredentials(email, password).Failure? ==>
        && r == Failure(CheckCredentials(email, password).error)
        && tokenRepository.rows == old(tokenRepository.rows)
        && tokenRepository.nextId == old(tokenRepository.nextId)
      ensures CheckCredentials(email, password).Success? ==>
        var user := CheckCredentials(email, password).value;
        && r == Success(LoginResponse(jwt.generateAccessToken(user), generated, BearerType, AccessTokenSeconds))
        && tokenRepository.rows ==
             Issue(old(tokenRepository.rows), TokenRow(old(tokenRepository.nextId), generated, user.id, PlusDays(now, RefreshTokenDays)))
        && TokensOf(tokenRepository.rows, user.id) == [TokenRow(old(tokenRepository.nextId), generated, user.id, PlusDays(now, RefreshTokenDays))]
        && tokenRepository.FindByToken(generated).Some?
    {
      var found := userService.FindByEmail(email);
      if found.Failure? {
        return Failure(UserLookupFailed(found.error));
      }
      var user := found.value;
      if !userService.ValidatePassword(user, password) {
        return Failure(InvalidCredentials(BadPasswordMessage));
      }
      if !user.enabled {
        return Failure(InvalidCredentials(DisabledMessage));
      }

      var accessToken := jwt.generateAccessToken(user);
      var refreshTokenValue := generated;

      var before := tokenRepository.rows;
      tokenRepository.DeleteAllByUser(user.id);
      var saved := SaveNewToken(refreshTokenValue, user.id, now);

      assert tokenRepository.rows == Issue(before, saved);
      IssueKeepsOneTokenPerUser(before, saved);
      IssueLeavesOneToken(before, saved, user.id);
      return Success(LoginResponse(accessToken, refreshTokenValue, BearerType, AccessTokenSeconds));
    }

    /** `refreshToken`. An unknown value fails and changes nothing. An expired token is
        deleted, but the exception that follows is unchecked, so the class-wide
        transaction rolls the deletion back and the store ends as it was. A live token is
        replaced by a new token for the same owner, whose enabled flag is never looked at. */
    method RefreshToken(value: string, generated: string, now: Instant)
      returns (r: Result<LoginResponse, AuthError>)
      requires Valid()
      requires generated !in Values(tokenRepository.rows)
      modifies tokenRepository
      ensures Valid()
      ensures old(tokenRepository.FindByToken(value)).None? ==>
        && r == Failure(InvalidToken(UnknownTokenMessage))
        && tokenRepository.rows == old(tokenRepository.rows)
      ensures old(tokenRepository.FindByToken(value)).Some? ==>
        var used := old(tokenRepository.FindByToken(value)).value;
        && (Expired(used.expiryDate, now) ==>
              && r == Failure(InvalidToken(ExpiredTokenMessage))
              && tokenRepository.rows == old(tokenRepository.rows)
              && tokenRepository.FindByToken(value) == Some(used))
        && (!Expired(used.expiryDate, now) ==>
              var next := TokenRow(old(tokenRepository.nextId), generated, used.user, PlusDays(now, RefreshTokenDays));
              && r == Success(LoginResponse(jwt.generateAccessToken(old(Owner(used))), generated, BearerType, AccessTokenSeconds))
              && tokenRepository.rows == Rotate(old(tokenRepository.rows), used, next)
              && TokensOf(tokenRepository.rows, used.user) == [next]
              && tokenRepository.FindByToken(value).None?)
    {
      var found := tokenRepository.FindByToken(value);
      if found.None? {
        return Failure(InvalidToken(UnknownTokenMessage));
      }
      var refreshToken := found.value;
      var before := tokenRepository.rows;

      if Expired(refreshToken.expiryDate, now) {
        tokenRepository.Delete(refreshToken);
        // the InvalidTokenException below is unchecked: the transaction rolls back
        tokenRepository.rows := before;
        return Failure(InvalidToken(ExpiredTokenMessage));
      }

      var user := Owner(refreshToken);
      var newAccessToken := jwt.generateAccessToken(user);
      var newRefreshTokenValue := generated;

      tokenRepository.Delete(refreshToken);
      var saved := SaveNewToken(newRefreshTokenValue, user.id, now);

      assert tokenRepository.rows == Rotate(before, refreshToken, saved);
      RotateReplacesTheToken(before, refreshToken, saved, user.id);
      RotateForgetsOldValue(before, refreshToken, saved);
      return Success(LoginResponse(newAccessToken, newRefreshTokenValue, BearerType, AccessTokenSeconds));
    }

    /** `logout`: deletes the token carrying `value` if there is one; otherwise does
        nothing, so a repeated logout is harmless. */
    method Logout(value: string)
      requires Valid()
      modifies tokenRepository
      ensures Valid()
      ensures old(tokenRepository.FindByToken(value)).None? ==> tokenRepository.rows == old(tokenRepository.rows)
      ensures old(tokenRepository.FindByToken(value)).Some? ==>
        tokenRepository.rows == WithoutId(old(tokenRepository.rows), old(tokenRepository.FindByToken(value)).value.id)
      ensures tokenRepository.FindByToken(value).None?
    {
      var found := tokenRepository.FindByToken(value);
      if found.Some? {
        ghost var before := tokenRepository.rows;
        tokenRepository.Delete(found.value);
        DeleteKeepsOneTokenPerUser(before, found.value.id);
        DeleteForgetsValue(before, found.value);
      }
    }

    /** `cleanupExpiredTokens`: the number of rows the sweep at `now` deleted. */
    method CleanupExpiredTokens(now: Instant) returns (deletedCount: int)
      requires Valid()
      modifies tokenRepository
      ensures Valid()
      ensures tokenRepository.rows == LiveRows(old(tokenRepository.rows), now)
      ensures deletedCount == |old(tokenRepository.FindExpiredTokens(now))|
      ensures tokenRepository.FindExpiredTokens(now) == []
    {
      var before := tokenRepository.rows;
      deletedCount := tokenRepository.DeleteByExpiryDateBefore(now);
      SweepKeepsOneTokenPerUser(before, now);
    }
  }

}
