/**
 The user controller: the Users table, the RefreshTokens table that its
 actions update in place, the JWT library configured with the signing key,
 and the expiry conversion it applies. Saving changes is an immediate
 commit, so each table is a field that the actions reassign.
 */
module Controllers {
  import opened Entities
  import opened Queries
  import opened Clock
  import opened TokenService

  class UserController {
    const codec: Codec
    const rule: ExpiryRule
    var users: seq<User>
    var refreshTokens: seq<RefreshToken>

    constructor (codec: Codec, rule: ExpiryRule, users: seq<User>, refreshTokens: seq<RefreshToken>)
      ensures this.codec == codec && this.rule == rule
      ensures this.users == users && this.refreshTokens == refreshTokens
    {
      this.codec := codec;
      this.rule := rule;
      this.users := users;
      this.refreshTokens := refreshTokens;
    }

    /** POST Login: issue a pair to the one user with these credentials. */
    method Validate(model: LoginModel, now: int, draw: Draw) returns (reply: Reply)
      modifies this`refreshTokens
      ensures Outcome(reply, refreshTokens) == Login(codec, users, old(refreshTokens), model, now, draw)
      ensures IsSuccess(reply) ==> |refreshTokens| == |old(refreshTokens)| + 1
      ensures !IsSuccess(reply) ==> refreshTokens == old(refreshTokens)
    {
      var user := SingleOrDefault(users, LoginMatches(model));
      if user.NoMatch? {
        return Rejection(InvalidCredentials);
      }
      if user.Ambiguous? {
        return ServerError;
      }
      var token := GenerateToken(user.value, now, draw);
      reply := Success(AuthenticationSuccess, token);
    }

    /** Sign an access token for `user` and persist its refresh-token record. */
    method GenerateToken(user: User, now: int, draw: Draw) returns (token: TokenModel)
      modifies this`refreshTokens
      ensures (token, refreshTokens) == Issue(codec, old(refreshTokens), user, now, draw)
      ensures refreshTokens == old(refreshTokens) + [RecordFor(user, now, draw)]
    {
      var claims := ClaimsFor(user, now, draw.jti);
      var accessToken := codec.write(claims);
      var refreshToken := draw.refreshValue;
      var refreshTokenEntity := RefreshToken(draw.recordId, claims.jti, user.id, refreshToken,
                                             false, false, now, now + RefreshTokenLifetime);
      refreshTokens := refreshTokens + [refreshTokenEntity];
      token := TokenModel(accessToken, refreshToken);
    }

    /** POST RenewToken: retire the presented refresh token and issue a new pair. */
    method RenewToken(model: TokenModel, now: int, draw: Draw) returns (reply: Reply)
      modifies this`refreshTokens
      ensures Outcome(reply, refreshTokens) == Renew(codec, rule, users, old(refreshTokens), model, now, draw)
      ensures |old(refreshTokens)| <= |refreshTokens| <= |old(refreshTokens)| + 1
    {
      var validated := codec.validate(model.accessToken);
      if validated.None? {
        return Fault();
      }
      var token := validated.value;

      if token.isJwtSecurityToken && !EqualsIgnoreCase(token.alg, HmacSha512) {
        return Rejection(InvalidToken);
      }

      if token.exp.None? || !InInt64(token.exp.value) {
        return Fault();
      }
      var expireDate := ExpireDate(rule, token.exp.value);
      if expireDate.None? {
        return Fault();
      }
      if expireDate.value > now {
        return Rejection(NotYetExpired);
      }

      var found := FirstIndexWhere(refreshTokens, HasToken(model.refreshToken));
      if found.None? {
        return Rejection(RefreshTokenMissing);
      }
      var i := found.value;
      var storedToken := refreshTokens[i];
      if storedToken.isUsed {
        return Rejection(RefreshTokenUsed);
      }
      if storedToken.isRevoked {
        return Rejection(RefreshTokenRevoked);
      }

      if token.jti.None? {
        return Fault();
      }
      if storedToken.jwtId != token.jti.value {
        return Rejection(TokenMismatch);
      }

      refreshTokens := refreshTokens[i := refreshTokens[i].(isRevoked := true)];
      refreshTokens := refreshTokens[i := refreshTokens[i].(isUsed := true)];
      assert refreshTokens == Retire(old(refreshTokens), i);

      var user := SingleOrDefault(users, HasId(storedToken.userId));
      if !user.Match? {
        return Fault();
      }
      var newToken := GenerateToken(user.value, now, draw);
      reply := Success(RenewSuccess, newToken);
    }
  }
}
