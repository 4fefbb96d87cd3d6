/**
 * The session handlers `Login`, `RefreshAuth` and `RevokeAuth`: chains of
 * early-return checks over the Authorization header, the parsed token and
 * the revocation ledger. `parse` stands for verifying and decoding a token
 * string; the handlers apply it to the header with "Bearer " trimmed.
 */
module Auth {
  import opened Wrappers
  import opened Decimal
  import opened Database
  import opened Tokens
  import opened Responses

  /** `Login`: `validated` is what checking the email and password against
      the store gave (`None` for any error). Valid credentials get both
      tokens, issued at `now`, for the user's id. */
  function Login(validated: Option<User>, now: Time): (r: Outcome)
    ensures r.status == StatusOK <==> validated.Some?
    ensures validated.None? ==> r == Refuse(StatusUnauthorized)
    ensures validated.Some? ==> r.effect.TokensIssued? && r.effect.user == validated.value
  {
    match validated
    case None => Refuse(StatusUnauthorized)
    case Some(user) =>
      var access := CreateSignedJWT(AccessTokenIssuer, AccessTokenTimeoutSeconds, user.id, now);
      var refresh := CreateSignedJWT(RefreshTokenIssuer, RefreshTokenTimeoutSeconds, user.id, now);
      Outcome(StatusOK, TokensIssued(user, access, refresh))
  }

  /** `RefreshAuth`: trades a refresh token that is valid, carries the refresh
      issuer and is not revoked in `d` for a new access token. */
  function RefreshAuth(header: string, parse: string -> ParsedToken, d: Document, now: Time): (r: Outcome)
    ensures var p := parse(TrimBearer(header));
      r.status == StatusOK <==>
        && header != "" && p.Parsed? && p.valid && p.issuer == RefreshTokenIssuer
        && !IsRevoked(d, TrimBearer(header)) && Atoi(p.subject).Some?
    ensures r.status == StatusOK ==> r.effect.AccessTokenIssued?
    ensures r.status != StatusOK ==> r.effect == NoEffect
    ensures header == "" ==> r == Refuse(StatusUnauthorized)
    ensures var p := parse(TrimBearer(header));
      header != "" && p.ParseError? ==> r == Refuse(StatusInternalServerError)
    ensures var p := parse(TrimBearer(header));
      header != "" && p.Parsed? && (!p.valid || p.issuer != RefreshTokenIssuer || IsRevoked(d, TrimBearer(header)))
      ==> r == Refuse(StatusUnauthorized)
    ensures var p := parse(TrimBearer(header));
      header != "" && p.Parsed? && p.valid && p.issuer == RefreshTokenIssuer
      && !IsRevoked(d, TrimBearer(header)) && Atoi(p.subject).None?
      ==> r == Refuse(StatusInternalServerError)
  {
    if header == "" then Refuse(StatusUnauthorized)
    else
      var token := TrimBearer(header);
      match parse(token)
      case ParseError => Refuse(StatusInternalServerError)
      case Parsed(valid, issuer, subject) =>
        if !valid then Refuse(StatusUnauthorized)
        else if issuer != RefreshTokenIssuer then Refuse(StatusUnauthorized)
        else if IsRevoked(d, token) then Refuse(StatusUnauthorized)
        else
          match Atoi(subject)
          case None => Refuse(StatusInternalServerError)
          case Some(userId) =>
            Outcome(StatusOK, AccessTokenIssued(CreateSignedJWT(AccessTokenIssuer, AccessTokenTimeoutSeconds, userId, now)))
  }

  /** `RevokeAuth`: a token that parses and carries the refresh issuer is
      recorded in the ledger. The validity flag is not consulted. */
  function RevokeAuth(header: string, parse: string -> ParsedToken): (r: Outcome)
    ensures var p := parse(TrimBearer(header));
      r.effect.TokenRevocation? <==> header != "" && p.Parsed? && p.issuer == RefreshTokenIssuer
    ensures r.effect.TokenRevocation? ==> r.effect.token == TrimBearer(header) && r.status == StatusOK
    ensures !r.effect.TokenRevocation? ==> r.effect == NoEffect && r.status != StatusOK
    ensures header == "" ==> r == Refuse(StatusUnauthorized)
    ensures var p := parse(TrimBearer(header));
      header != "" && p.ParseError? ==> r == Refuse(StatusInternalServerError)
    ensures var p := parse(TrimBearer(header));
      header != "" && p.Parsed? && p.issuer != RefreshTokenIssuer ==> r == Refuse(StatusUnauthorized)
  {
    if header == "" then Refuse(StatusUnauthorized)
    else
      var token := TrimBearer(header);
      match parse(token)
      case ParseError => Refuse(StatusInternalServerError)
      case Parsed(_, issuer, _) =>
        if issuer != RefreshTokenIssuer then Refuse(StatusUnauthorized)
        else Outcome(StatusOK, TokenRevocation(token))
  }

  // ---------------------------------------------------------------------------
  // Properties
  // ---------------------------------------------------------------------------

  /** Login issues an access token and a refresh token for the user's own id,
      with their issuers and lifetimes. */
  lemma LoginIssuesBothTokens(user: User, now: Time)
    requires MinInt64 <= user.id <= MaxInt64
    ensures var r := Login(Some(user), now);
      && r.effect.TokensIssued?
      && r.effect.access.issuer == AccessTokenIssuer
      && r.effect.access.expiresAt == now + 3600
      && r.effect.refresh.issuer == RefreshTokenIssuer
      && r.effect.refresh.expiresAt == now + 5_184_000
      && Atoi(r.effect.access.subject) == Some(user.id)
      && Atoi(r.effect.refresh.subject) == Some(user.id)
  {
    AtoiItoa(user.id);
  }

  /** Without an Authorization header both refresh and revoke answer 401 and
      change nothing. */
  lemma MissingHeaderIsUnauthorized(parse: string -> ParsedToken, d: Document, now: Time)
    ensures RefreshAuth("", parse, d, now) == Refuse(StatusUnauthorized)
    ensures RevokeAuth("", parse) == Refuse(StatusUnauthorized)
  {
  }

  /** A token the parser rejects gives 500 for refresh and for revoke. */
  lemma UnparsableTokenIsServerError(header: string, parse: string -> ParsedToken, d: Document, now: Time)
    requires header != "" && parse(TrimBearer(header)) == ParseError
    ensures RefreshAuth(header, parse, d, now) == Refuse(StatusInternalServerError)
    ensures RevokeAuth(header, parse) == Refuse(StatusInternalServerError)
  {
  }

  /** Refresh answers 401 to any parsed token whose issuer is not the refresh
      issuer, an access token in particular, whatever the ledger says. */
  lemma RefreshRejectsOtherIssuers(header: string, parse: string -> ParsedToken, d: Document, now: Time)
    requires header != "" && parse(TrimBearer(header)).Parsed?
    requires parse(TrimBearer(header)).issuer != RefreshTokenIssuer
    ensures RefreshAuth(header, parse, d, now) == Refuse(StatusUnauthorized)
  {
  }

  /** The ledger is consulted only for a valid refresh-issuer token: for any
      other token, revoked or not, the answer is the same. */
  lemma RevocationCheckedAfterIssuer(header: string, parse: string -> ParsedToken, d1: Document, d2: Document, now: Time)
    requires header != "" && parse(TrimBearer(header)).Parsed?
    requires !parse(TrimBearer(header)).valid || parse(TrimBearer(header)).issuer != RefreshTokenIssuer
    ensures RefreshAuth(header, parse, d1, now) == RefreshAuth(header, parse, d2, now)
  {
  }

  /** A successful refresh issues an access-issuer token for the same
      numeric subject, expiring an hour after `now`. */
  lemma RefreshKeepsSubject(header: string, parse: string -> ParsedToken, d: Document, now: Time)
    requires RefreshAuth(header, parse, d, now).status == StatusOK
    ensures var r := RefreshAuth(header, parse, d, now);
      var subject := parse(TrimBearer(header)).subject;
      && r.effect.AccessTokenIssued?
      && r.effect.access.issuer == AccessTokenIssuer
      && r.effect.access.expiresAt == now + 3600
      && Atoi(r.effect.access.subject) == Atoi(subject)
  {
    var subject := parse(TrimBearer(header)).subject;
    AtoiItoa(Atoi(subject).value);
  }

  /** Once a refresh token is revoked, presenting the same header to refresh
      answers 401 while the token still parses as it did at revocation. */
  lemma RevokedTokenCannotRefresh(header: string, parse: string -> ParsedToken, d: Document, revokedAt: Time, later: Time)
    requires RevokeAuth(header, parse).effect.TokenRevocation?
    ensures var d' := RecordRevocation(d, RevokeAuth(header, parse).effect.token, revokedAt);
      RefreshAuth(header, parse, d', later) == Refuse(StatusUnauthorized)
  {
  }

  /** Whatever the token parses to later (after it expires the parser
      rejects it and refresh answers 500), a revoked token never refreshes. */
  lemma RevokedTokenNeverRefreshes(header: string, parse: string -> ParsedToken, parseLater: string -> ParsedToken,
                                   d: Document, revokedAt: Time, later: Time)
    requires RevokeAuth(header, parse).effect.TokenRevocation?
    ensures var d' := RecordRevocation(d, RevokeAuth(header, parse).effect.token, revokedAt);
      RefreshAuth(header, parseLater, d', later).status != StatusOK
  {
  }

  /** An expired or badly signed token is refused by revoke (500), so it can
      never be put in the ledger. */
  lemma RevokeNeedsParsableToken(header: string, parse: string -> ParsedToken)
    requires parse(TrimBearer(header)) == ParseError
    ensures !RevokeAuth(header, parse).effect.TokenRevocation?
  {
  }
}
