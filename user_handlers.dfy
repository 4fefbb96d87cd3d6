/**
 * The account handlers `CreateUser`, `UpdateUser` and `UpgradeUser`. The
 * store calls they make (creating a user with a password, updating one,
 * upgrading one) belong to a store version that is not part of this model:
 * each handler names the call it makes as its effect and takes the call's
 * result as a parameter.
 */
module UserHandlers {
  import opened Wrappers
  import opened Decimal
  import opened Database
  import opened Tokens
  import opened Responses

  /** The webhook event that asks for an upgrade. */
  const UpgradeEvent: string := "user.upgraded"

  /** How the store's `UpgradeUser` can fail. */
  datatype UpgradeError = UserNotFound | UpgradeFailed

  /** `CreateUser`: the store is asked to create the user; every error it
      reports, an email already in use included, is answered with 500. */
  function CreateUser(email: string, password: string, created: Result<User, StoreError>): (r: Outcome)
    ensures r.effect == UserInsert(email, password)
    ensures r.status == StatusCreated <==> created.Ok?
    ensures created.Err? ==> r.status == StatusInternalServerError
  {
    Outcome(if created.Ok? then StatusCreated else StatusInternalServerError, UserInsert(email, password))
  }

  /** `UpdateUser`: only an access-issuer token may update, and the user
      updated is the token's subject read as a number. `updated` is what the
      store's update returned (`None` for an error). */
  function UpdateUser(header: string, parse: string -> ParsedToken, email: string, password: string,
                      updated: Option<User>): (r: Outcome)
    ensures var p := parse(TrimBearer(header));
      r.effect.UserUpdate? <==>
        header != "" && p.Parsed? && p.issuer == AccessTokenIssuer && Atoi(p.subject).Some?
    ensures r.effect.UserUpdate? ==>
      && Some(r.effect.userId) == Atoi(parse(TrimBearer(header)).subject)
      && r.effect.email == email && r.effect.password == password
    ensures !r.effect.UserUpdate? ==> r.effect == NoEffect
    ensures r.status == StatusOK <==> r.effect.UserUpdate? && updated.Some?
    ensures r.effect.UserUpdate? && updated.None? ==> r.status == StatusInternalServerError
    ensures var p := parse(TrimBearer(header));
      header == "" || p.ParseError? || p.issuer != AccessTokenIssuer ==> r == Refuse(StatusUnauthorized)
    ensures var p := parse(TrimBearer(header));
      header != "" && p.Parsed? && p.issuer == AccessTokenIssuer && Atoi(p.subject).None?
      ==> r == Refuse(StatusInternalServerError)
  {
    if header == "" then Refuse(StatusUnauthorized)
    else
      match parse(TrimBearer(header))
      case ParseError => Refuse(StatusUnauthorized)
      case Parsed(_, issuer, subject) =>
        if issuer != AccessTokenIssuer then Refuse(StatusUnauthorized)
        else
          match Atoi(subject)
          case None => Refuse(StatusInternalServerError)
          case Some(userId) =>
            Outcome(if updated.Some? then StatusOK else StatusInternalServerError, UserUpdate(userId, email, password))
  }

  /** `UpgradeUser`: events other than `user.upgraded` are acknowledged with
      200 and change nothing; an upgrade of an unknown user is 404 and any
      other store error 500. */
  function UpgradeUser(event: string, userId: int, upgraded: Result<User, UpgradeError>): (r: Outcome)
    ensures event != UpgradeEvent ==> r == Outcome(StatusOK, NoEffect)
    ensures event == UpgradeEvent ==>
      && r.effect == UserUpgrade(userId)
      && (r.status == StatusOK <==> upgraded.Ok?)
      && (r.status == StatusNotFound <==> upgraded == Err(UserNotFound))
      && (r.status == StatusInternalServerError <==> upgraded == Err(UpgradeFailed))
  {
    if event != UpgradeEvent then Outcome(StatusOK, NoEffect)
    else
      match upgraded
      case Err(UserNotFound) => Outcome(StatusNotFound, UserUpgrade(userId))
      case Err(_) => Outcome(StatusInternalServerError, UserUpgrade(userId))
      case Ok(_) => Outcome(StatusOK, UserUpgrade(userId))
  }

  // ---------------------------------------------------------------------------
  // Properties
  // ---------------------------------------------------------------------------

  /** A refresh token, or any other token not issued as an access token,
      cannot update a user; neither can a request without a header. */
  lemma UpdateNeedsAccessToken(header: string, parse: string -> ParsedToken, email: string, password: string,
                               updated: Option<User>)
    requires header == "" || parse(TrimBearer(header)).ParseError?
      || parse(TrimBearer(header)).issuer != AccessTokenIssuer
    ensures UpdateUser(header, parse, email, password, updated) == Refuse(StatusUnauthorized)
  {
  }

  /** Signing up with an email that is already registered is not told apart
      from other failures: the store refuses and the answer is 500. */
  lemma SignUpWithUsedEmailIsServerError(d: Document, email: string, password: string)
    requires email in Entries(d.users)
    ensures CreateUser(email, password, InsertUser(d, email).1).status == StatusInternalServerError
  {
  }

  /** The user a token authorises updating is the one whose id it was issued
      for at login. */
  lemma UpdateTargetsTokenOwner(header: string, parse: string -> ParsedToken, login: Claims, user: User,
                                email: string, password: string, updated: Option<User>)
    requires MinInt64 <= user.id <= MaxInt64
    requires login == CreateSignedJWT(AccessTokenIssuer, AccessTokenTimeoutSeconds, user.id, login.issuedAt)
    requires header != "" && parse(TrimBearer(header)) == Parsed(true, login.issuer, login.subject)
    ensures UpdateUser(header, parse, email, password, updated).effect == UserUpdate(user.id, email, password)
  {
    AtoiItoa(user.id);
  }
}
