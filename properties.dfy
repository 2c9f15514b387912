/**
 What the rotation guarantees, stated over the action functions of
 TokenService (the controller's methods are proved equal to them).
 */
module Properties {
  import opened Entities
  import opened Queries
  import opened Clock
  import opened TokenService

  /** The JWT library reads back exactly the header and claims it wrote. */
  ghost predicate RoundTrips(codec: Codec)
  {
    forall c :: codec.validate(codec.write(c)) == Some(ValidatedToken(true, c.alg, Some(c.expires), Some(c.jti)))
  }

  /** User ids are the table's key. */
  ghost predicate UniqueIds(users: seq<User>)
  {
    forall i, j :: 0 <= i < |users| && 0 <= j < |users| && users[i].id == users[j].id ==> i == j
  }

  ghost predicate UniqueTokens(tokens: seq<RefreshToken>)
  {
    forall i, j :: 0 <= i < |tokens| && 0 <= j < |tokens| && tokens[i].token == tokens[j].token ==> i == j
  }

  /**
   `after` keeps every record of `before` in place, with the same identity
   and binding, and never clears a flag that was set.
   */
  ghost predicate KeepsHistory(before: seq<RefreshToken>, after: seq<RefreshToken>)
  {
    && |before| <= |after|
    && forall i :: 0 <= i < |before| ==>
         var (b, a) := (before[i], after[i]);
         && a.id == b.id && a.jwtId == b.jwtId && a.userId == b.userId && a.token == b.token
         && a.issueAt == b.issueAt && a.expiredAt == b.expiredAt
         && (b.isUsed ==> a.isUsed) && (b.isRevoked ==> a.isRevoked)
  }

  /** The first of `RenewalSteps` that fails under these inputs. */
  function FirstFailure(codec: Codec, rule: ExpiryRule, tokens: seq<RefreshToken>, model: TokenModel, now: int): Option<Step>
  {
    FirstFailing(RenewalSteps, codec.validate(model.accessToken), rule, tokens, model.refreshToken, now)
  }

  // ------------------------------------------------------------ check order

  /** One step of unrolling `FirstFailing` over a list written as head and tail. */
  lemma FirstFailingCons(x: Step, rest: seq<Step>, validated: Option<ValidatedToken>, rule: ExpiryRule, tokens: seq<RefreshToken>, refreshToken: string, now: int)
    ensures FirstFailing([x] + rest, validated, rule, tokens, refreshToken, now)
         == if !StepHolds(x, validated, rule, tokens, refreshToken, now) then Some(x)
            else FirstFailing(rest, validated, rule, tokens, refreshToken, now)
  {
    assert ([x] + rest)[1..] == rest;
  }

  /** `FirstFailing` over `RenewalSteps`, written out as the chain of its nine checks. */
  lemma RenewalStepsUnrolled(v: Option<ValidatedToken>, r: ExpiryRule, t: seq<RefreshToken>, rt: string, n: int)
    ensures FirstFailing(RenewalSteps, v, r, t, rt, n)
         == if !StepHolds(SignatureValid, v, r, t, rt, n) then Some(SignatureValid)
            else if !StepHolds(AlgorithmAccepted, v, r, t, rt, n) then Some(AlgorithmAccepted)
            else if !StepHolds(ExpiryReadable, v, r, t, rt, n) then Some(ExpiryReadable)
            else if !StepHolds(AccessTokenExpired, v, r, t, rt, n) then Some(AccessTokenExpired)
            else if !StepHolds(RecordExists, v, r, t, rt, n) then Some(RecordExists)
            else if !StepHolds(RecordNotUsed, v, r, t, rt, n) then Some(RecordNotUsed)
            else if !StepHolds(RecordNotRevoked, v, r, t, rt, n) then Some(RecordNotRevoked)
            else if !StepHolds(JtiReadable, v, r, t, rt, n) then Some(JtiReadable)
            else if !StepHolds(JtiBound, v, r, t, rt, n) then Some(JtiBound)
            else None
  {
    var s8 := [JtiBound];
    var s7 := [JtiReadable] + s8;
    var s6 := [RecordNotRevoked] + s7;
    var s5 := [RecordNotUsed] + s6;
    var s4 := [RecordExists] + s5;
    var s3 := [AccessTokenExpired] + s4;
    var s2 := [ExpiryReadable] + s3;
    var s1 := [AlgorithmAccepted] + s2;
    assert RenewalSteps == [SignatureValid] + s1;
    FirstFailingCons(SignatureValid, s1, v, r, t, rt, n);
    FirstFailingCons(AlgorithmAccepted, s2, v, r, t, rt, n);
    FirstFailingCons(ExpiryReadable, s3, v, r, t, rt, n);
    FirstFailingCons(AccessTokenExpired, s4, v, r, t, rt, n);
    FirstFailingCons(RecordExists, s5, v, r, t, rt, n);
    FirstFailingCons(RecordNotUsed, s6, v, r, t, rt, n);
    FirstFailingCons(RecordNotRevoked, s7, v, r, t, rt, n);
    FirstFailingCons(JtiReadable, s8, v, r, t, rt, n);
    FirstFailingCons(JtiBound, [], v, r, t, rt, n);
    assert s8 == [JtiBound] + [];
  }

  /** The validation chain is the ordered list of checks: it passes iff every check holds, else it answers for the first that fails. */
  lemma ChecksFollowFixedOrder(validated: Option<ValidatedToken>, rule: ExpiryRule, tokens: seq<RefreshToken>, refreshToken: string, now: int)
    ensures var first := FirstFailing(RenewalSteps, validated, rule, tokens, refreshToken, now);
      && (first.None? <==> Checks(validated, rule, tokens, refreshToken, now).Passed?)
      && (first.Some? ==> Checks(validated, rule, tokens, refreshToken, now) == Rejected(StepFailure(first.value)))
  {
    var (vd, r, t, rt, n) := (validated, rule, tokens, refreshToken, now);
    RenewalStepsUnrolled(vd, r, t, rt, n);
    var found := FirstIndexWhere(tokens, HasToken(refreshToken));
    match validated
    case None =>
      assert !StepHolds(SignatureValid, vd, r, t, rt, n);
    case Some(v) =>
      assert StepHolds(SignatureValid, vd, r, t, rt, n);
      if v.isJwtSecurityToken && !EqualsIgnoreCase(v.alg, HmacSha512) {
        assert !StepHolds(AlgorithmAccepted, vd, r, t, rt, n);
      } else if v.exp.None? || !InInt64(v.exp.value) || ExpireDate(rule, v.exp.value).None? {
        assert StepHolds(AlgorithmAccepted, vd, r, t, rt, n);
        assert !StepHolds(ExpiryReadable, vd, r, t, rt, n);
      } else if ExpireDate(rule, v.exp.value).value > now {
        assert StepHolds(AlgorithmAccepted, vd, r, t, rt, n);
        assert StepHolds(ExpiryReadable, vd, r, t, rt, n);
        assert !StepHolds(AccessTokenExpired, vd, r, t, rt, n);
      } else {
        assert StepHolds(AlgorithmAccepted, vd, r, t, rt, n);
        assert StepHolds(ExpiryReadable, vd, r, t, rt, n);
        assert StepHolds(AccessTokenExpired, vd, r, t, rt, n);
        StoreChecksInOrder(v, r, t, rt, n);
      }
  }

  /** The record checks, once the access token has passed its own. */
  lemma StoreChecksInOrder(v: ValidatedToken, r: ExpiryRule, t: seq<RefreshToken>, rt: string, n: int)
    requires !v.isJwtSecurityToken || EqualsIgnoreCase(v.alg, HmacSha512)
    requires v.exp.Some? && InInt64(v.exp.value) && ExpireDate(r, v.exp.value).Some? && ExpireDate(r, v.exp.value).value <= n
    ensures var vd := Some(v);
      var c := Checks(vd, r, t, rt, n);
      if !StepHolds(RecordExists, vd, r, t, rt, n) then c == Rejected(StepFailure(RecordExists))
      else if !StepHolds(RecordNotUsed, vd, r, t, rt, n) then c == Rejected(StepFailure(RecordNotUsed))
      else if !StepHolds(RecordNotRevoked, vd, r, t, rt, n) then c == Rejected(StepFailure(RecordNotRevoked))
      else if !StepHolds(JtiReadable, vd, r, t, rt, n) then c == Rejected(StepFailure(JtiReadable))
      else if !StepHolds(JtiBound, vd, r, t, rt, n) then c == Rejected(StepFailure(JtiBound))
      else c.Passed?
  {
  }

  /** A renewal whose checks reject answers with that rejection and leaves the store unchanged. */
  lemma RejectedRenewalUnchanged(codec: Codec, rule: ExpiryRule, users: seq<User>, tokens: seq<RefreshToken>, model: TokenModel, now: int, draw: Draw)
    requires Checks(codec.validate(model.accessToken), rule, tokens, model.refreshToken, now).Rejected?
    ensures Renew(codec, rule, users, tokens, model, now, draw)
         == Outcome(Checks(codec.validate(model.accessToken), rule, tokens, model.refreshToken, now).reply, tokens)
  {
  }

  /** A renewal that fails a check answers for the first failing check alone and leaves the store as it was. */
  lemma FirstFailingCheckDecides(codec: Codec, rule: ExpiryRule, users: seq<User>, tokens: seq<RefreshToken>, model: TokenModel, now: int, draw: Draw)
    requires FirstFailure(codec, rule, tokens, model, now).Some?
    ensures Renew(codec, rule, users, tokens, model, now, draw)
         == Outcome(StepFailure(FirstFailure(codec, rule, tokens, model, now).value), tokens)
  {
    ChecksFollowFixedOrder(codec.validate(model.accessToken), rule, tokens, model.refreshToken, now);
  }

  /** A renewal succeeds exactly when every check holds and the record's owner is found once. */
  lemma RenewalSucceedsIff(codec: Codec, rule: ExpiryRule, users: seq<User>, tokens: seq<RefreshToken>, model: TokenModel, now: int, draw: Draw)
    ensures IsSuccess(Renew(codec, rule, users, tokens, model, now, draw).reply) <==>
      && FirstFailure(codec, rule, tokens, model, now).None?
      && var found := FirstIndexWhere(tokens, HasToken(model.refreshToken));
         found.Some? && SingleOrDefault(users, HasId(tokens[found.value].userId)).Match?
  {
    ChecksFollowFixedOrder(codec.validate(model.accessToken), rule, tokens, model.refreshToken, now);
  }

  // ---------------------------------------------------------- rotation shape

  /**
   A successful renewal retires the presented record (which was live and
   bound to the access token's jti), leaves every other record alone and
   appends one live record for the same user, bound to the new jti.
   */
  lemma SuccessfulRenewalRotates(codec: Codec, rule: ExpiryRule, users: seq<User>, tokens: seq<RefreshToken>, model: TokenModel, now: int, draw: Draw)
    requires IsSuccess(Renew(codec, rule, users, tokens, model, now, draw).reply)
    ensures var found := FirstIndexWhere(tokens, HasToken(model.refreshToken));
      var after := Renew(codec, rule, users, tokens, model, now, draw);
      && found.Some?
      && var i := found.value;
      && var validated := codec.validate(model.accessToken);
      && !tokens[i].isUsed && !tokens[i].isRevoked
      && validated.Some? && validated.value.jti == Some(tokens[i].jwtId)
      && |after.tokens| == |tokens| + 1
      && after.tokens[i] == tokens[i].(isUsed := true, isRevoked := true)
      && (forall j :: 0 <= j < |tokens| && j != i ==> after.tokens[j] == tokens[j])
      && var rec := after.tokens[|tokens|];
      && !rec.isUsed && !rec.isRevoked
      && rec.userId == tokens[i].userId
      && rec.jwtId == draw.jti
      && rec.token == draw.refreshValue
      && rec.issueAt == now && rec.expiredAt == rec.issueAt + RefreshTokenLifetime
      && exists u :: u in users && u.id == rec.userId &&
           after.reply == Success(RenewSuccess, TokenModel(codec.write(ClaimsFor(u, now, rec.jwtId)), rec.token))
  {
    var validated := codec.validate(model.accessToken);
    var i := Checks(validated, rule, tokens, model.refreshToken, now).index;
    var owner := SingleOrDefault(users, HasId(tokens[i].userId));
    assert owner.Match?;
    var after := Renew(codec, rule, users, tokens, model, now, draw);
    assert after.tokens == Retire(tokens, i) + [RecordFor(owner.value, now, draw)];
    assert owner.value in users;
  }

  /** If the owning user is not found once, the presented record stays retired and nothing is added. */
  lemma MissingOwnerRetiresWithoutIssuing(codec: Codec, rule: ExpiryRule, users: seq<User>, tokens: seq<RefreshToken>, model: TokenModel, now: int, draw: Draw)
    requires FirstFailure(codec, rule, tokens, model, now).None?
    requires var found := FirstIndexWhere(tokens, HasToken(model.refreshToken));
      found.Some? ==> !SingleOrDefault(users, HasId(tokens[found.value].userId)).Match?
    ensures var found := FirstIndexWhere(tokens, HasToken(model.refreshToken));
      && found.Some?
      && Renew(codec, rule, users, tokens, model, now, draw) == Outcome(Fault(), Retire(tokens, found.value))
  {
    ChecksFollowFixedOrder(codec.validate(model.accessToken), rule, tokens, model.refreshToken, now);
  }

  /**
   The store after a renewal: unchanged on rejection; on passing the checks,
   the presented record retired, followed on success by one record issued
   to a user of the table.
   */
  lemma RenewStore(codec: Codec, rule: ExpiryRule, users: seq<User>, tokens: seq<RefreshToken>, model: TokenModel, now: int, draw: Draw)
      returns (passed: bool, i: nat)
    ensures var c := Checks(codec.validate(model.accessToken), rule, tokens, model.refreshToken, now);
      var after := Renew(codec, rule, users, tokens, model, now, draw);
      && passed == c.Passed?
      && (!passed ==> after.tokens == tokens && after.reply == c.reply)
      && (passed ==> i == c.index && i < |tokens| && FirstIndexWhere(tokens, HasToken(model.refreshToken)) == Some(i))
      && (passed && !IsSuccess(after.reply) ==> after.tokens == Retire(tokens, i))
      && (IsSuccess(after.reply) ==> passed)
      && (IsSuccess(after.reply) ==>
            exists u :: (u in users && u.id == tokens[i].userId
                         && after.tokens == Retire(tokens, i) + [RecordFor(u, now, draw)]
                         && after.reply == Success(RenewSuccess, PairFor(codec, u, now, draw))))
  {
    var c := Checks(codec.validate(model.accessToken), rule, tokens, model.refreshToken, now);
    passed := c.Passed?;
    if passed {
      i := c.index;
      var owner := SingleOrDefault(users, HasId(tokens[i].userId));
      if owner.Match? {
        var k :| 0 <= k < |users| && users[k] == owner.value;
      }
    } else {
      i := 0;
    }
  }

  /** The access token passes signature, algorithm and expiry: the checks that come before the store is read. */
  ghost predicate AccessTokenAccepted(codec: Codec, rule: ExpiryRule, model: TokenModel, now: int)
  {
    var v := codec.validate(model.accessToken);
    && v.Some?
    && (!v.value.isJwtSecurityToken || EqualsIgnoreCase(v.value.alg, HmacSha512))
    && v.value.exp.Some? && InInt64(v.value.exp.value)
    && ExpireDate(rule, v.value.exp.value).Some? && ExpireDate(rule, v.value.exp.value).value <= now
  }

  /** A presented refresh token whose first record is used is refused, with "used" once the access token is accepted. */
  lemma UsedRecordRefused(codec: Codec, rule: ExpiryRule, users: seq<User>, tokens: seq<RefreshToken>, model: TokenModel, now: int, draw: Draw, i: nat)
    requires FirstIndexWhere(tokens, HasToken(model.refreshToken)) == Some(i) && tokens[i].isUsed
    ensures var o := Renew(codec, rule, users, tokens, model, now, draw);
      && !IsSuccess(o.reply) && o.tokens == tokens
      && (AccessTokenAccepted(codec, rule, model, now) ==> o.reply == Rejection(RefreshTokenUsed))
  {
    var passed, j := RenewStore(codec, rule, users, tokens, model, now, draw);
  }

  // -------------------------------------------------------------- single use

  /**
   After a successful renewal, presenting the same refresh token never
   succeeds again: the store does not change, and once the access token is
   accepted the answer is "Refresh token has been used".
   */
  lemma SingleUse(codec: Codec, rule: ExpiryRule, users: seq<User>, tokens: seq<RefreshToken>, model: TokenModel, now: int, draw: Draw,
                  again: TokenModel, later: int, draw': Draw)
    requires IsSuccess(Renew(codec, rule, users, tokens, model, now, draw).reply)
    requires again.refreshToken == model.refreshToken
    ensures var after := Renew(codec, rule, users, tokens, model, now, draw).tokens;
      var second := Renew(codec, rule, users, after, again, later, draw');
      && !IsSuccess(second.reply)
      && second.tokens == after
      && (AccessTokenAccepted(codec, rule, again, later) ==> second.reply == Rejection(RefreshTokenUsed))
  {
    var p := HasToken(model.refreshToken);
    var passed, i := RenewStore(codec, rule, users, tokens, model, now, draw);
    var u :| u in users && u.id == tokens[i].userId
      && Renew(codec, rule, users, tokens, model, now, draw).tokens == Retire(tokens, i) + [RecordFor(u, now, draw)];
    var retired := Retire(tokens, i);
    var after := retired + [RecordFor(u, now, draw)];
    FirstIndexAfterUpdate(tokens, p, i, tokens[i].(isRevoked := true, isUsed := true));
    FirstIndexAfterAppend(retired, p, [RecordFor(u, now, draw)]);
    assert after[i].isUsed;
    UsedRecordRefused(codec, rule, users, after, again, later, draw', i);
  }

  /**
   After a successful renewal with refresh values unique in the store and a
   new value drawn, the retired record is the only one holding the presented
   value; so whichever matching record a lookup returns, it is used and
   revoked.
   */
  lemma OnlyRetiredRecordHoldsPresentedValue(codec: Codec, rule: ExpiryRule, users: seq<User>, tokens: seq<RefreshToken>, model: TokenModel, now: int, draw: Draw)
    requires IsSuccess(Renew(codec, rule, users, tokens, model, now, draw).reply)
    requires UniqueTokens(tokens) && draw.refreshValue != model.refreshToken
    ensures var after := Renew(codec, rule, users, tokens, model, now, draw).tokens;
      forall k :: 0 <= k < |after| && after[k].token == model.refreshToken ==> after[k].isUsed && after[k].isRevoked
  {
    var passed, i := RenewStore(codec, rule, users, tokens, model, now, draw);
    var u :| u in users && u.id == tokens[i].userId
      && Renew(codec, rule, users, tokens, model, now, draw).tokens == Retire(tokens, i) + [RecordFor(u, now, draw)];
    var after := Retire(tokens, i) + [RecordFor(u, now, draw)];
    forall k | 0 <= k < |after| && after[k].token == model.refreshToken
      ensures after[k].isUsed && after[k].isRevoked
    {
      if k < |tokens| {
        assert tokens[k].token == tokens[i].token;
      }
    }
  }

  // ------------------------------------------------------------------- login

  /** User `i` of the table has the presented user name and password. */
  ghost predicate HasCredentials(users: seq<User>, model: LoginModel, i: int)
  {
    0 <= i < |users| && users[i].userName == model.userName && users[i].password == model.password
  }

  /**
   Login issues a pair and appends one live record exactly when one user
   matches both user name and password; with no match it answers
   "Invalid username/password", with several the lookup throws, and in
   both cases the store is unchanged.
   */
  lemma LoginIssuesOnlyOnUniqueMatch(codec: Codec, users: seq<User>, tokens: seq<RefreshToken>, model: LoginModel, now: int, draw: Draw)
    ensures var o := Login(codec, users, tokens, model, now, draw);
      && (IsSuccess(o.reply) <==>
            && (exists i :: HasCredentials(users, model, i))
            && !exists i, j :: i < j && HasCredentials(users, model, i) && HasCredentials(users, model, j))
      && (o.reply == Rejection(InvalidCredentials) <==> forall i :: !HasCredentials(users, model, i))
      && (o.reply == ServerError <==>
            exists i, j :: i < j && HasCredentials(users, model, i) && HasCredentials(users, model, j))
      && (!IsSuccess(o.reply) ==> o.tokens == tokens)
      && (IsSuccess(o.reply) ==>
            && |o.tokens| == |tokens| + 1 && o.tokens[..|tokens|] == tokens
            && var rec := o.tokens[|tokens|];
            && !rec.isUsed && !rec.isRevoked && rec.jwtId == draw.jti && rec.token == draw.refreshValue
            && rec.issueAt == now && rec.expiredAt == rec.issueAt + RefreshTokenLifetime
            && exists i :: HasCredentials(users, model, i) && users[i].id == rec.userId &&
                 o.reply == Success(AuthenticationSuccess, TokenModel(codec.write(ClaimsFor(users[i], now, rec.jwtId)), rec.token)))
  {
    var o := Login(codec, users, tokens, model, now, draw);
    LoginReplies(codec, users, tokens, model, now, draw);
    var lookup := CredentialLookup(users, model);
    if lookup.Match? {
      LoginIssuesRecord(codec, users, tokens, model, now, draw);
    }
  }

  /** A successful login appends one live record for a user holding the credentials, and hands out that user's pair. */
  lemma LoginIssuesRecord(codec: Codec, users: seq<User>, tokens: seq<RefreshToken>, model: LoginModel, now: int, draw: Draw)
    requires SingleOrDefault(users, LoginMatches(model)).Match?
    ensures var o := Login(codec, users, tokens, model, now, draw);
      && |o.tokens| == |tokens| + 1 && o.tokens[..|tokens|] == tokens
      && var rec := o.tokens[|tokens|];
      && !rec.isUsed && !rec.isRevoked && rec.jwtId == draw.jti && rec.token == draw.refreshValue
      && rec.issueAt == now && rec.expiredAt == rec.issueAt + RefreshTokenLifetime
      && exists i :: HasCredentials(users, model, i) && users[i].id == rec.userId &&
           o.reply == Success(AuthenticationSuccess, TokenModel(codec.write(ClaimsFor(users[i], now, rec.jwtId)), rec.token))
  {
    var lookup := CredentialLookup(users, model);
    var user := lookup.value;
    var k :| HasCredentials(users, model, k) && users[k] == user;
    assert Login(codec, users, tokens, model, now, draw)
        == Outcome(Success(AuthenticationSuccess, PairFor(codec, user, now, draw)), tokens + [RecordFor(user, now, draw)]);
  }

  /** The reply of a login, by the outcome of its lookup. */
  lemma LoginReplies(codec: Codec, users: seq<User>, tokens: seq<RefreshToken>, model: LoginModel, now: int, draw: Draw)
    ensures var o := Login(codec, users, tokens, model, now, draw);
      var lookup := SingleOrDefault(users, LoginMatches(model));
      && (IsSuccess(o.reply) <==> lookup.Match?)
      && (o.reply == Rejection(InvalidCredentials) <==> lookup.NoMatch?)
      && (o.reply == ServerError <==> lookup.Ambiguous?)
      && (!IsSuccess(o.reply) ==> o.tokens == tokens)
  {
    var o := Login(codec, users, tokens, model, now, draw);
    match SingleOrDefault(users, LoginMatches(model))
    case NoMatch =>
      assert o == Outcome(Rejection(InvalidCredentials), tokens);
    case Ambiguous =>
      assert o == Outcome(ServerError, tokens);
    case Match(user) =>
      assert IsSuccess(o.reply) && o.reply != ServerError && o.reply != Rejection(InvalidCredentials);
  }

  /** The login lookup, in terms of the users holding the presented credentials. */
  lemma CredentialLookup(users: seq<User>, model: LoginModel) returns (lookup: Single<User>)
    ensures lookup == SingleOrDefault(users, LoginMatches(model))
    ensures lookup.NoMatch? <==> forall i :: !HasCredentials(users, model, i)
    ensures lookup.Ambiguous? <==> exists i, j :: i < j && HasCredentials(users, model, i) && HasCredentials(users, model, j)
    ensures lookup.Match? ==> exists k :: HasCredentials(users, model, k) && users[k] == lookup.value
  {
    lookup := SingleOrDefault(users, LoginMatches(model));
    assert forall i :: HasCredentials(users, model, i) <==> 0 <= i < |users| && LoginMatches(model)(users[i]);
    match lookup
    case NoMatch =>
    case Ambiguous =>
      var i, j :| 0 <= i < j < |users| && LoginMatches(model)(users[i]) && LoginMatches(model)(users[j]);
      assert HasCredentials(users, model, i) && HasCredentials(users, model, j);
    case Match(user) =>
      var k :| 0 <= k < |users| && users[k] == user;
      assert HasCredentials(users, model, k);
  }

  // ------------------------------------------------------------------ expiry

  /**
   As written, the premature-renewal check rejects a well-formed token
   exactly when the clock is before the epoch, whatever its `exp`.
   */
  lemma AsWrittenExpiryFiresOnlyBeforeEpoch(v: ValidatedToken, tokens: seq<RefreshToken>, refreshToken: string, now: int)
    requires !v.isJwtSecurityToken || EqualsIgnoreCase(v.alg, HmacSha512)
    requires v.exp.Some? && Representable(v.exp.value)
    ensures Checks(Some(v), AsWritten, tokens, refreshToken, now) == Rejected(Rejection(NotYetExpired)) <==> now < UnixEpoch
  {
    assert InInt64(v.exp.value);
  }

  /** As intended, it rejects exactly the tokens whose `exp` lies after the clock. */
  lemma AsIntendedExpiryRejectsPremature(v: ValidatedToken, tokens: seq<RefreshToken>, refreshToken: string, now: int)
    requires !v.isJwtSecurityToken || EqualsIgnoreCase(v.alg, HmacSha512)
    requires v.exp.Some? && Representable(v.exp.value)
    ensures Checks(Some(v), AsIntended, tokens, refreshToken, now) == Rejected(Rejection(NotYetExpired)) <==> v.exp.value > now
  {
    assert InInt64(v.exp.value);
  }

  /** The algorithm check accepts exactly the spellings of HS512 that differ from it in the case of its letters. */
  lemma AlgorithmCheckIgnoresCase(a: string)
    ensures EqualsIgnoreCase(a, HmacSha512) <==>
      |a| == 5 && (a[0] == 'h' || a[0] == 'H') && (a[1] == 's' || a[1] == 'S') && a[2..] == "512"
  {
  }

  // ---------------------------------------------------- issuance then renewal

  /** The pair a login hands out, and the store after that login. */
  lemma LoginSucceedsFor(codec: Codec, users: seq<User>, tokens: seq<RefreshToken>, model: LoginModel, now: int, draw: Draw)
      returns (user: User)
    requires SingleOrDefault(users, LoginMatches(model)).Match?
    ensures user in users && user.userName == model.userName && user.password == model.password
    ensures Login(codec, users, tokens, model, now, draw)
         == Outcome(Success(AuthenticationSuccess, PairFor(codec, user, now, draw)), tokens + [RecordFor(user, now, draw)])
  {
    user := SingleOrDefault(users, LoginMatches(model)).value;
    var k :| 0 <= k < |users| && users[k] == user;
  }

  /**
   Renewing a freshly issued pair: the presented record is the new one, it
   is live and bound, and the owner is found; so the outcome is decided by
   the signature, algorithm and expiry checks alone.
   */
  lemma IssuedPairPassesStoreChecks(codec: Codec, rule: ExpiryRule, users: seq<User>, tokens: seq<RefreshToken>,
                                    user: User, now: int, draw: Draw, later: int, draw': Draw)
    requires RoundTrips(codec) && UniqueIds(users) && user in users
    requires forall k :: 0 <= k < |tokens| ==> tokens[k].token != draw.refreshValue
    requires Representable(now + AccessTokenLifetime)
    ensures var after := tokens + [RecordFor(user, now, draw)];
      var pair := PairFor(codec, user, now, draw);
      var date := ExpireDate(rule, now + AccessTokenLifetime).value;
      && (date > later ==> Renew(codec, rule, users, after, pair, later, draw') == Outcome(Rejection(NotYetExpired), after))
      && (date <= later ==> IsSuccess(Renew(codec, rule, users, after, pair, later, draw').reply))
  {
    var after := tokens + [RecordFor(user, now, draw)];
    var pair := PairFor(codec, user, now, draw);
    var claims := ClaimsFor(user, now, draw.jti);
    assert codec.validate(pair.accessToken) == Some(ValidatedToken(true, HmacSha512, Some(claims.expires), Some(draw.jti)));
    assert EqualsIgnoreCase(HmacSha512, HmacSha512);
    assert InInt64(now + AccessTokenLifetime);
    var p := HasToken(pair.refreshToken);
    assert p(after[|tokens|]);
    assert FirstIndexWhere(after, p) == Some(|tokens|) by {
      assert forall k :: 0 <= k < |tokens| ==> after[k] == tokens[k];
    }
    var k :| 0 <= k < |users| && users[k] == user;
    var owner := SingleOrDefault(users, HasId(user.id));
    assert HasId(user.id)(users[k]);
    assert !exists a, b :: 0 <= a < b < |users| && HasId(user.id)(users[a]) && HasId(user.id)(users[b]);
    assert owner.Match?;
  }

  /**
   The premature-renewal check as written does not stop a renewal in the
   same second as the login that issued the pair (the access token still
   has ten seconds to live).
   */
  lemma PrematureRenewalAcceptedAsWritten(codec: Codec, users: seq<User>, tokens: seq<RefreshToken>, model: LoginModel, now: int, draw: Draw, draw': Draw)
    requires RoundTrips(codec) && UniqueIds(users)
    requires SingleOrDefault(users, LoginMatches(model)).Match?
    requires forall k :: 0 <= k < |tokens| ==> tokens[k].token != draw.refreshValue
    requires UnixEpoch <= now && Representable(now + AccessTokenLifetime)
    ensures var login := Login(codec, users, tokens, model, now, draw);
      && IsSuccess(login.reply)
      && IsSuccess(Renew(codec, AsWritten, users, login.tokens, login.reply.body.data.value, now, draw').reply)
  {
    var user := LoginSucceedsFor(codec, users, tokens, model, now, draw);
    IssuedPairPassesStoreChecks(codec, AsWritten, users, tokens, user, now, draw, now, draw');
  }

  /** With the intended conversion, that renewal is refused until the access token has expired, and allowed from then on. */
  lemma PrematureRenewalRejectedAsIntended(codec: Codec, users: seq<User>, tokens: seq<RefreshToken>, model: LoginModel, now: int, draw: Draw,
                                           later: int, draw': Draw)
    requires RoundTrips(codec) && UniqueIds(users)
    requires SingleOrDefault(users, LoginMatches(model)).Match?
    requires forall k :: 0 <= k < |tokens| ==> tokens[k].token != draw.refreshValue
    requires Representable(now + AccessTokenLifetime)
    ensures var login := Login(codec, users, tokens, model, now, draw);
      var renewal := Renew(codec, AsIntended, users, login.tokens, login.reply.body.data.value, later, draw');
      && IsSuccess(login.reply)
      && (later < now + AccessTokenLifetime ==> renewal.reply == Rejection(NotYetExpired) && renewal.tokens == login.tokens)
      && (later >= now + AccessTokenLifetime ==> IsSuccess(renewal.reply))
  {
    var user := LoginSucceedsFor(codec, users, tokens, model, now, draw);
    IssuedPairPassesStoreChecks(codec, AsIntended, users, tokens, user, now, draw, later, draw');
  }

  // --------------------------------------------------------------- invariants

  /** No action removes, rebinds or un-retires a record. */
  lemma LoginKeepsHistory(codec: Codec, users: seq<User>, tokens: seq<RefreshToken>, login: LoginModel, now: int, draw: Draw)
    ensures KeepsHistory(tokens, Login(codec, users, tokens, login, now, draw).tokens)
  {
  }

  lemma RenewKeepsHistory(codec: Codec, rule: ExpiryRule, users: seq<User>, tokens: seq<RefreshToken>, model: TokenModel, now: int, draw: Draw)
    ensures KeepsHistory(tokens, Renew(codec, rule, users, tokens, model, now, draw).tokens)
  {
    var passed, i := RenewStore(codec, rule, users, tokens, model, now, draw);
    if passed {
      assert KeepsHistory(tokens, Retire(tokens, i));
    }
  }

  /** With a refresh value not yet in the store, refresh-token values stay unique. */
  lemma LoginKeepsTokensUnique(codec: Codec, users: seq<User>, tokens: seq<RefreshToken>, login: LoginModel, now: int, draw: Draw)
    requires UniqueTokens(tokens)
    requires forall k :: 0 <= k < |tokens| ==> tokens[k].token != draw.refreshValue
    ensures UniqueTokens(Login(codec, users, tokens, login, now, draw).tokens)
  {
  }

  lemma RenewKeepsTokensUnique(codec: Codec, rule: ExpiryRule, users: seq<User>, tokens: seq<RefreshToken>, model: TokenModel, now: int, draw: Draw)
    requires UniqueTokens(tokens)
    requires forall k :: 0 <= k < |tokens| ==> tokens[k].token != draw.refreshValue
    ensures UniqueTokens(Renew(codec, rule, users, tokens, model, now, draw).tokens)
  {
    var passed, i := RenewStore(codec, rule, users, tokens, model, now, draw);
    if passed {
      var retired := Retire(tokens, i);
      assert forall k :: 0 <= k < |tokens| ==> retired[k].token == tokens[k].token;
    }
  }

  /** The renewal never looks at a refresh token's own expiry: changing it changes nothing else. */
  lemma RefreshExpiryIgnored(codec: Codec, rule: ExpiryRule, users: seq<User>, tokens: seq<RefreshToken>, model: TokenModel, now: int, draw: Draw,
                             k: nat, expiredAt: int)
    requires k < |tokens|
    ensures var changed := tokens[k := tokens[k].(expiredAt := expiredAt)];
      Renew(codec, rule, users, changed, model, now, draw).reply == Renew(codec, rule, users, tokens, model, now, draw).reply
  {
    var changed := tokens[k := tokens[k].(expiredAt := expiredAt)];
    var v := codec.validate(model.accessToken);
    FirstIndexAgrees(tokens, changed, HasToken(model.refreshToken));
    SameChecks(v, rule, tokens, changed, model.refreshToken, now);
    var c := Checks(v, rule, tokens, model.refreshToken, now);
    if c.Passed? {
      assert changed[c.index].userId == tokens[c.index].userId;
    }
  }

  /** The checks read nothing of a record but its token, flags and jti. */
  lemma SameChecks(v: Option<ValidatedToken>, rule: ExpiryRule, tokens: seq<RefreshToken>, changed: seq<RefreshToken>, refreshToken: string, now: int)
    requires |changed| == |tokens|
    requires forall j :: 0 <= j < |tokens| ==>
      changed[j].(expiredAt := 0) == tokens[j].(expiredAt := 0)
    ensures Checks(v, rule, changed, refreshToken, now) == Checks(v, rule, tokens, refreshToken, now)
  {
    assert forall j :: 0 <= j < |tokens| ==> HasToken(refreshToken)(changed[j]) == HasToken(refreshToken)(tokens[j]);
    FirstIndexAgrees(tokens, changed, HasToken(refreshToken));
  }
}
