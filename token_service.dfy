/**
 The behaviour of the three controller actions as functions of the store:
 login (`Login`), issuance (`Issue`) and refresh-token rotation (`Renew`).
 A store is the sequence of refresh-token records in table order; each
 action yields the reply and the store after it (`Outcome`).
 */
module TokenService {
  import opened Entities
  import opened Queries
  import opened Clock

  datatype Outcome = Outcome(reply: Reply, tokens: seq<RefreshToken>)

  /** Invariant-culture upper casing, restricted to ASCII letters. */
  function UpperAscii(c: char): char
  {
    if 'a' <= c <= 'z' then (c as int - 32) as char else c
  }

  /** ASCII ordinal-ignore-case, standing for the invariant-culture case-insensitive comparison. */
  predicate EqualsIgnoreCase(a: string, b: string): (r: bool)
    ensures a == b ==> r
    ensures r ==> |a| == |b|
  {
    |a| == |b| && forall i :: 0 <= i < |a| ==> UpperAscii(a[i]) == UpperAscii(b[i])
  }

  // ---------------------------------------------------------------- issuance

  /** The claims of the access token issued to `user` at `now`. */
  function ClaimsFor(user: User, now: int, jti: string): AccessClaims
  {
    AccessClaims(user.fullName, user.email, user.email, jti, user.userName, user.id,
                 now + AccessTokenLifetime, HmacSha512)
  }

  /** The refresh-token record persisted alongside that access token. */
  function RecordFor(user: User, now: int, draw: Draw): RefreshToken
  {
    RefreshToken(draw.recordId, draw.jti, user.id, draw.refreshValue, false, false,
                 now, now + RefreshTokenLifetime)
  }

  /** The pair handed back to the client. */
  function PairFor(codec: Codec, user: User, now: int, draw: Draw): TokenModel
  {
    TokenModel(codec.write(ClaimsFor(user, now, draw.jti)), draw.refreshValue)
  }

  /** Issuing tokens to `user` appends one record and returns the pair. */
  function Issue(codec: Codec, tokens: seq<RefreshToken>, user: User, now: int, draw: Draw): (r: (TokenModel, seq<RefreshToken>))
    ensures |r.1| == |tokens| + 1 && r.1[..|tokens|] == tokens
    ensures var rec := r.1[|tokens|];
      && !rec.isUsed && !rec.isRevoked
      && rec.userId == user.id
      && rec.token == r.0.refreshToken
      && rec.issueAt == now && rec.expiredAt == rec.issueAt + RefreshTokenLifetime
      && r.0.accessToken == codec.write(ClaimsFor(user, now, rec.jwtId))
  {
    (PairFor(codec, user, now, draw), tokens + [RecordFor(user, now, draw)])
  }

  // ------------------------------------------------------------------- login

  function LoginMatches(model: LoginModel): User -> bool
  {
    (u: User) => u.userName == model.userName && u.password == model.password
  }

  /** POST Login: issue a pair to the only user with these credentials. */
  function Login(codec: Codec, users: seq<User>, tokens: seq<RefreshToken>, model: LoginModel, now: int, draw: Draw): (r: Outcome)
    ensures IsSuccess(r.reply) <==> SingleOrDefault(users, LoginMatches(model)).Match?
    ensures r.reply == ServerError <==> exists i, j :: 0 <= i < j < |users| && LoginMatches(model)(users[i]) && LoginMatches(model)(users[j])
    ensures !IsSuccess(r.reply) ==> r.tokens == tokens
    ensures IsSuccess(r.reply) ==> |r.tokens| == |tokens| + 1 && r.tokens[..|tokens|] == tokens
  {
    match SingleOrDefault(users, LoginMatches(model))
    case NoMatch => Outcome(Rejection(InvalidCredentials), tokens)
    case Ambiguous => Outcome(ServerError, tokens)
    case Match(user) =>
      var (pair, tokens') := Issue(codec, tokens, user, now, draw);
      Outcome(Success(AuthenticationSuccess, pair), tokens')
  }

  // ----------------------------------------------------------------- renewal

  function HasToken(value: string): RefreshToken -> bool
  {
    (t: RefreshToken) => t.token == value
  }

  function HasId(id: int): User -> bool
  {
    (u: User) => u.id == id
  }

  /** The earlier checks either reject with a reply, or pass with the index of the stored record. */
  datatype Verdict = Rejected(reply: Reply) | Passed(index: nat)

  /**
   The validation chain of a renewal, over the validated access token, the
   store and the presented refresh-token value.
   */
  function Checks(validated: Option<ValidatedToken>, rule: ExpiryRule, tokens: seq<RefreshToken>, refreshToken: string, now: int): (r: Verdict)
    ensures r.Passed? ==> FirstIndexWhere(tokens, HasToken(refreshToken)) == Some(r.index)
  {
    match validated
    case None => Rejected(Fault())
    case Some(v) =>
      if v.isJwtSecurityToken && !EqualsIgnoreCase(v.alg, HmacSha512) then Rejected(Rejection(InvalidToken))
      else if v.exp.None? || !InInt64(v.exp.value) then Rejected(Fault())
      else match ExpireDate(rule, v.exp.value)
      case None => Rejected(Fault())
      case Some(expireDate) =>
        if expireDate > now then Rejected(Rejection(NotYetExpired))
        else match FirstIndexWhere(tokens, HasToken(refreshToken))
        case None => Rejected(Rejection(RefreshTokenMissing))
        case Some(i) =>
          if tokens[i].isUsed then Rejected(Rejection(RefreshTokenUsed))
          else if tokens[i].isRevoked then Rejected(Rejection(RefreshTokenRevoked))
          else if v.jti.None? then Rejected(Fault())
          else if tokens[i].jwtId != v.jti.value then Rejected(Rejection(TokenMismatch))
          else Passed(i)
  }

  /** The stored record with both flags set. */
  function Retire(tokens: seq<RefreshToken>, i: nat): (r: seq<RefreshToken>)
    requires i < |tokens|
    ensures |r| == |tokens| && r[i].isUsed && r[i].isRevoked
    ensures r[i].(isUsed := tokens[i].isUsed, isRevoked := tokens[i].isRevoked) == tokens[i]
    ensures forall j :: 0 <= j < |tokens| && j != i ==> r[j] == tokens[j]
  {
    tokens[i := tokens[i].(isRevoked := true, isUsed := true)]
  }

  /** POST RenewToken: check both tokens, retire the presented record and issue a new pair. */
  function Renew(codec: Codec, rule: ExpiryRule, users: seq<User>, tokens: seq<RefreshToken>, model: TokenModel, now: int, draw: Draw): (r: Outcome)
    ensures IsSuccess(r.reply) <==> |r.tokens| == |tokens| + 1
    ensures |tokens| <= |r.tokens| <= |tokens| + 1
    ensures forall j :: 0 <= j < |tokens| ==> r.tokens[j].token == tokens[j].token && r.tokens[j].jwtId == tokens[j].jwtId
  {
    match Checks(codec.validate(model.accessToken), rule, tokens, model.refreshToken, now)
    case Rejected(reply) => Outcome(reply, tokens)
    case Passed(i) =>
      var retired := Retire(tokens, i);
      match SingleOrDefault(users, HasId(tokens[i].userId))
      case Match(user) =>
        var (pair, tokens') := Issue(codec, retired, user, now, draw);
        Outcome(Success(RenewSuccess, pair), tokens')
      case _ => Outcome(Fault(), retired)
  }

  // ------------------------------------ the checks as an ordered reference list

  datatype Step =
    | SignatureValid
    | AlgorithmAccepted
    | ExpiryReadable
    | AccessTokenExpired
    | RecordExists
    | RecordNotUsed
    | RecordNotRevoked
    | JtiReadable
    | JtiBound

  /** The order in which a renewal applies its checks. */
  const RenewalSteps: seq<Step> := [SignatureValid, AlgorithmAccepted, ExpiryReadable, AccessTokenExpired,
                                    RecordExists, RecordNotUsed, RecordNotRevoked, JtiReadable, JtiBound]

  /** What a renewal answers when `step` is the first check that fails. */
  function StepFailure(step: Step): Reply
  {
    match step
    case SignatureValid => Fault()
    case AlgorithmAccepted => Rejection(InvalidToken)
    case ExpiryReadable => Fault()
    case AccessTokenExpired => Rejection(NotYetExpired)
    case RecordExists => Rejection(RefreshTokenMissing)
    case RecordNotUsed => Rejection(RefreshTokenUsed)
    case RecordNotRevoked => Rejection(RefreshTokenRevoked)
    case JtiReadable => Fault()
    case JtiBound => Rejection(TokenMismatch)
  }

  /**
   Whether one check holds, judged on its own. A check whose subject is
   missing (no validated token, no stored record, no claim) holds vacuously:
   an earlier check is the one that fails then.
   */
  predicate StepHolds(step: Step, validated: Option<ValidatedToken>, rule: ExpiryRule, tokens: seq<RefreshToken>, refreshToken: string, now: int)
  {
    var found := FirstIndexWhere(tokens, HasToken(refreshToken));
    match step
    case SignatureValid => validated.Some?
    case AlgorithmAccepted =>
      validated.Some? ==> !validated.value.isJwtSecurityToken || EqualsIgnoreCase(validated.value.alg, HmacSha512)
    case ExpiryReadable =>
      validated.Some? ==> var e := validated.value.exp; e.Some? && InInt64(e.value) && ExpireDate(rule, e.value).Some?
    case AccessTokenExpired =>
      validated.Some? && validated.value.exp.Some? && ExpireDate(rule, validated.value.exp.value).Some? ==>
        ExpireDate(rule, validated.value.exp.value).value <= now
    case RecordExists => found.Some?
    case RecordNotUsed => found.Some? ==> !tokens[found.value].isUsed
    case RecordNotRevoked => found.Some? ==> !tokens[found.value].isRevoked
    case JtiReadable => validated.Some? ==> validated.value.jti.Some?
    case JtiBound =>
      validated.Some? && validated.value.jti.Some? && found.Some? ==>
        tokens[found.value].jwtId == validated.value.jti.value
  }

  /** The first of `steps` that does not hold. */
  function FirstFailing(steps: seq<Step>, validated: Option<ValidatedToken>, rule: ExpiryRule, tokens: seq<RefreshToken>, refreshToken: string, now: int): (r: Option<Step>)
    ensures r.None? <==> forall k :: 0 <= k < |steps| ==> StepHolds(steps[k], validated, rule, tokens, refreshToken, now)
    ensures r.Some? ==> r.value in steps && !StepHolds(r.value, validated, rule, tokens, refreshToken, now)
    ensures r.Some? ==> exists k ::
      && 0 <= k < |steps| && steps[k] == r.value
      && forall j :: 0 <= j < k ==> StepHolds(steps[j], validated, rule, tokens, refreshToken, now)
  {
    if |steps| == 0 then None
    else if !StepHolds(steps[0], validated, rule, tokens, refreshToken, now) then Some(steps[0])
    else
      assert forall k :: 1 <= k < |steps| ==> steps[k] == steps[1..][k - 1];
      FirstFailing(steps[1..], validated, rule, tokens, refreshToken, now)
  }
}
