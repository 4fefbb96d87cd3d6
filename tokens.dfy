/**
 * Session tokens. Two kinds are told apart only by the issuer claim:
 * short-lived access tokens and long-lived refresh tokens. Signing and
 * verifying (HMAC-SHA256 JSON Web Tokens) are not modelled: issuing a token
 * is the set of claims it would carry, and parsing one is a `ParsedToken`
 * supplied by the caller.
 */
module Tokens {
  import opened Wrappers
  import opened Decimal
  import opened Database

  const AccessTokenIssuer: string := "chirpy-access"
  const AccessTokenTimeoutSeconds: int := 60 * 60
  const RefreshTokenIssuer: string := "chirpy-refresh"
  const RefreshTokenTimeoutSeconds: int := 60 * 60 * 24 * 60

  /** The registered claims of an issued token. */
  datatype Claims = Claims(issuer: string, subject: string, issuedAt: Time, expiresAt: Time)

  /** The claims `createSignedJWT` signs at time `now`. */
  function CreateSignedJWT(issuer: string, timeoutSeconds: int, userId: int, now: Time): Claims {
    Claims(issuer, Itoa(userId), now, now + timeoutSeconds)
  }

  /** What parsing a presented token string yields: an error (bad signature,
      malformed, expired), or the token's validity flag and the issuer and
      subject claims. */
  datatype ParsedToken = ParseError | Parsed(valid: bool, issuer: string, subject: string)

  const BearerPrefix: string := "Bearer "

  predicate HasBearerPrefix(header: string) {
    |header| >= |BearerPrefix| && header[..|BearerPrefix|] == BearerPrefix
  }

  /** `strings.TrimPrefix(header, "Bearer ")`. */
  function TrimBearer(header: string): string {
    if HasBearerPrefix(header) then header[|BearerPrefix|..] else header
  }

  /** The two lifetimes are one hour and sixty days, in seconds, and the two
      issuer tags differ. */
  lemma TokenKinds()
    ensures AccessTokenTimeoutSeconds == 3600
    ensures RefreshTokenTimeoutSeconds == 5_184_000
    ensures AccessTokenIssuer != RefreshTokenIssuer
  {
    assert AccessTokenIssuer[7] != RefreshTokenIssuer[7];
  }

  /** An issued token carries the given issuer, was issued at `now`, expires
      `timeoutSeconds` later, and its subject reads back as the user id. */
  lemma IssuedClaims(issuer: string, timeoutSeconds: int, userId: int, now: Time)
    requires MinInt64 <= userId <= MaxInt64
    ensures var claims := CreateSignedJWT(issuer, timeoutSeconds, userId, now);
      && claims.issuer == issuer
      && claims.issuedAt == now
      && claims.expiresAt - claims.issuedAt == timeoutSeconds
      && Atoi(claims.subject) == Some(userId)
  {
    AtoiItoa(userId);
  }

  /** Exactly one leading "Bearer " is removed; a header without it is the
      token as it stands. */
  lemma TrimBearerRemovesOnePrefix(token: string, header: string)
    ensures TrimBearer(BearerPrefix + token) == token
    ensures !HasBearerPrefix(header) ==> TrimBearer(header) == header
  {
    assert (BearerPrefix + token)[..|BearerPrefix|] == BearerPrefix;
    assert (BearerPrefix + token)[|BearerPrefix|..] == token;
  }
}
