/**
 * What a request handler decides: the HTTP status it answers with and the
 * one call into the store or the token issuer that it makes on the way.
 */
module Responses {
  import opened Database
  import opened Tokens

  /** The HTTP status codes 200, 201, 400, 401, 403, 404 and 500. */
  datatype Status = StatusOK | StatusCreated | StatusBadRequest | StatusUnauthorized | StatusForbidden | StatusNotFound | StatusInternalServerError

  datatype Effect =
    | NoEffect
    | TokensIssued(user: User, access: Claims, refresh: Claims)
    | AccessTokenIssued(access: Claims)
    | TokenRevocation(token: string)
    | ChirpInsert(body: string, authorId: int)
    | UnattributedChirpInsert(body: string)
    | ChirpDeletion(chirpId: int)
    | UserInsert(email: string, password: string)
    | UserUpdate(userId: int, email: string, password: string)
    | UserUpgrade(userId: int)

  datatype Outcome = Outcome(status: Status, effect: Effect)

  /** An answer that changes nothing. */
  function Refuse(status: Status): Outcome {
    Outcome(status, NoEffect)
  }
}
