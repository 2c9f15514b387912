/**
 The records the token controller reads and writes: users, login and token
 requests, persisted refresh-token records, the API response, and the view
 of an access token that the JWT library hands back after validation.
 Timestamps are whole seconds relative to 1970-01-01T00:00:00Z.
 */
module Entities {

  datatype Option<+T> = None | Some(value: T)

  /** A row of the Users table (Demo_JWT/User.cs). */
  datatype User = User(id: int, userName: string, password: string, fullName: string, email: string)

  /** The body of a login request. */
  datatype LoginModel = LoginModel(userName: string, password: string)

  /** An access token and its paired refresh token, as handed to the client and sent back on renewal. */
  datatype TokenModel = TokenModel(accessToken: string, refreshToken: string)

  /** A row of the RefreshTokens table. */
  datatype RefreshToken = RefreshToken(
    id: string,
    jwtId: string,
    userId: int,
    token: string,
    isUsed: bool,
    isRevoked: bool,
    issueAt: int,
    expiredAt: int)

  /** The JSON body of every answer. */
  datatype ApiResponse = ApiResponse(success: bool, message: string, data: Option<TokenModel>)

  /**
   How the controller answers: `Ok` and `BadRequest` carry a body;
   `ServerError` is an exception that escapes the action.
   */
  datatype Reply = Ok(body: ApiResponse) | BadRequest(body: ApiResponse) | ServerError

  /** The claims and header algorithm an access token is created with. */
  datatype AccessClaims = AccessClaims(
    name: string,
    email: string,
    sub: string,
    jti: string,
    userName: string,
    id: int,
    expires: int,
    alg: string)

  /**
   What validating an access token yields: whether the validated token is a
   `JwtSecurityToken`, its header algorithm, and the `exp` and `jti` claims
   (`None` when the claim is missing; for `exp` also when its text is not a number).
   */
  datatype ValidatedToken = ValidatedToken(isJwtSecurityToken: bool, alg: string, exp: Option<int>, jti: Option<string>)

  /**
   The JWT library with the configured signing key: `write` creates and
   serialises a signed token, `validate` checks a token's signature (lifetime
   not checked) and yields `None` when validation throws.
   */
  datatype Codec = Codec(write: AccessClaims -> string, validate: string -> Option<ValidatedToken>)

  /** The values a single issuance draws from Guid.NewGuid and the random generator. */
  datatype Draw = Draw(jti: string, recordId: string, refreshValue: string)

  const HmacSha512: string := "HS512"
  const AccessTokenLifetime: int := 10
  const RefreshTokenLifetime: int := 3600

  const InvalidCredentials: string := "Invalid username/password"
  const AuthenticationSuccess: string := "Authentication success"
  const InvalidToken: string := "Invalid Token"
  const NotYetExpired: string := "Access token has not yet expired"
  const RefreshTokenMissing: string := "Refresh token does not exist"
  const RefreshTokenUsed: string := "Refresh token has been used"
  const RefreshTokenRevoked: string := "Refresh token has been revoked"
  const TokenMismatch: string := "Token do not match"
  const RenewSuccess: string := "Renew token success"
  const SomethingWentWrong: string := "Something went wrong"

  function Rejection(message: string): Reply
  {
    Ok(ApiResponse(false, message, None))
  }

  /** The answer of the catch-all handler of the renewal action. */
  function Fault(): Reply
  {
    BadRequest(ApiResponse(false, SomethingWentWrong, None))
  }

  function Success(message: string, token: TokenModel): Reply
  {
    Ok(ApiResponse(true, message, Some(token)))
  }

  predicate IsSuccess(r: Reply)
  {
    r.Ok? && r.body.success
  }
}
