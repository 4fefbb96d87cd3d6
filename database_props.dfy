/**
 * What the repository operations promise, stated over the document
 * transitions that the `DB` methods are proved to perform.
 */
module DatabaseProperties {
  import opened Wrappers
  import opened Database

  // ---------------------------------------------------------------------------
  // Chirps
  // ---------------------------------------------------------------------------

  /** The new chirp carries the given body and author and the id n + 1; it is
      stored under that id, a nil chirp map is initialised, and the users and
      the ledger are not touched. */
  lemma CreateChirpStoresGivenFields(d: Document, body: string, authorId: int)
    ensures var (d', chirp) := InsertChirp(d, body, authorId);
      && chirp == Chirp(|Entries(d.chirps)| + 1, body, authorId)
      && d'.chirps.Some?
      && chirp.id in Entries(d'.chirps) && Entries(d'.chirps)[chirp.id] == chirp
      && d'.users == d.users && d'.revokedUserTokens == d.revokedUserTokens
  {
  }

  /** Every chirp stored under another id is still there, unchanged, and the
      only key that can be new is the new chirp's id. */
  lemma CreateChirpKeepsOtherChirps(d: Document, body: string, authorId: int)
    ensures var (d', chirp) := InsertChirp(d, body, authorId);
      && Entries(d'.chirps).Keys == Entries(d.chirps).Keys + {chirp.id}
      && forall k :: k in Entries(d.chirps) && k != chirp.id ==> Entries(d'.chirps)[k] == Entries(d.chirps)[k]
  {
  }

  /** On an empty store the first chirp gets id 1 and the second id 2. */
  lemma FirstTwoChirpIds(body1: string, author1: int, body2: string, author2: int)
    ensures var (d1, c1) := InsertChirp(EmptyDocument, body1, author1);
      var (d2, c2) := InsertChirp(d1, body2, author2);
      && c1.id == 1 && c2.id == 2
      && Entries(d2.chirps) == map[1 := c1, 2 := c2]
  {
  }

  /** The size + 1 rule loses a chirp exactly when that id is taken: the map
      then keeps its size and the old chirp under that id is replaced. */
  lemma CreateChirpOverwritesIffIdTaken(d: Document, body: string, authorId: int)
    ensures var (d', chirp) := InsertChirp(d, body, authorId);
      && (chirp.id in Entries(d.chirps) <==> |Entries(d'.chirps)| == |Entries(d.chirps)|)
      && (chirp.id !in Entries(d.chirps) <==> |Entries(d'.chirps)| == |Entries(d.chirps)| + 1)
  {
  }

  /** The defect made concrete: with chirp 2 stored alone (chirp 1 gone), the
      next chirp also gets id 2 and the stored chirp 2 disappears. */
  lemma CreateChirpOverwriteExample()
    ensures var old2 := Chirp(2, "second", 7);
      var d := Document(Some(map[2 := old2]), None, None);
      var (d', chirp) := InsertChirp(d, "third", 9);
      && chirp.id == 2
      && Entries(d'.chirps) == map[2 := Chirp(2, "third", 9)]
      && old2 !in Entries(d'.chirps).Values
  {
    var old2 := Chirp(2, "second", 7);
    var d := Document(Some(map[2 := old2]), None, None);
    var (d', chirp) := InsertChirp(d, "third", 9);
    assert Entries(d'.chirps) == map[2 := Chirp(2, "third", 9)];
    assert Entries(d'.chirps).Values == {Chirp(2, "third", 9)};
  }

  /** Chirps only ever created, starting from an empty store, keep ids
      exactly 1..n, so every new id is fresh and nothing is overwritten. */
  lemma {:induction false} ChirpHistoryStaysDense(bodies: seq<string>, authors: seq<int>)
    requires |bodies| == |authors|
    ensures ChirpIdsDense(Entries(CreateAll(EmptyDocument, bodies, authors).chirps))
    ensures |Entries(CreateAll(EmptyDocument, bodies, authors).chirps)| == |bodies|
  {
    if |bodies| > 0 {
      var n := |bodies| - 1;
      ChirpHistoryStaysDense(bodies[..n], authors[..n]);
      InsertChirpFreshWhenDense(CreateAll(EmptyDocument, bodies[..n], authors[..n]), bodies[n], authors[n]);
    }
  }

  /** The document after creating the given chirps in order. */
  function CreateAll(d: Document, bodies: seq<string>, authors: seq<int>): Document
    requires |bodies| == |authors|
  {
    if |bodies| == 0 then d
    else
      var n := |bodies| - 1;
      InsertChirp(CreateAll(d, bodies[..n], authors[..n]), bodies[n], authors[n]).0
  }

  // ---------------------------------------------------------------------------
  // Users
  // ---------------------------------------------------------------------------

  /** A create is refused with `EmailInUse` exactly when the email is already a
      key, and a refused create leaves the document as it was. */
  lemma CreateUserRejectsUsedEmail(d: Document, email: string)
    ensures (InsertUser(d, email).1 == Err(EmailInUse)) <==> email in Entries(d.users)
    ensures email in Entries(d.users) ==> InsertUser(d, email).0 == d
  {
  }

  /** A successful create stores the returned user under its email with id
      n + 1, keeps every other user, and leaves chirps and ledger alone. */
  lemma CreateUserStoresUnderEmail(d: Document, email: string)
    requires email !in Entries(d.users)
    ensures var (d', r) := InsertUser(d, email);
      && r == Ok(User(|Entries(d.users)| + 1, email))
      && Entries(d'.users) == Entries(d.users)[email := r.value]
      && |Entries(d'.users)| == |Entries(d.users)| + 1
      && d'.chirps == d.chirps && d'.revokedUserTokens == d.revokedUserTokens
  {
  }

  /** Signing up twice with one email: the first user gets id 1, the second
      call fails and the first record is unaffected. */
  lemma SecondSignUpWithSameEmailFails(email: string)
    ensures var (d1, r1) := InsertUser(EmptyDocument, email);
      var (d2, r2) := InsertUser(d1, email);
      && r1 == Ok(User(1, email))
      && r2 == Err(EmailInUse)
      && d2 == d1
  {
  }

  /** Emails are compared as exact keys: one that differs only in letter case
      is a different user. */
  lemma EmailMatchIsCaseSensitive()
    ensures var (d1, _) := InsertUser(EmptyDocument, "alice@example.com");
      InsertUser(d1, "Alice@example.com").1 == Ok(User(2, "Alice@example.com"))
  {
    var (d1, _) := InsertUser(EmptyDocument, "alice@example.com");
    assert "Alice@example.com" != "alice@example.com" by {
      assert "Alice@example.com"[0] != "alice@example.com"[0];
    }
    assert "Alice@example.com" !in Entries(d1.users);
  }

  /** Creating users never gives two users the same id. */
  lemma CreateUserKeepsIdsUnique(d: Document, email: string)
    requires UserIdsDense(Entries(d.users))
    ensures var users' := Entries(InsertUser(d, email).0.users);
      forall e1, e2 :: e1 in users' && e2 in users' && e1 != e2 ==> users'[e1].id != users'[e2].id
  {
    var users := Entries(d.users);
    if email !in users {
      var users' := Entries(InsertUser(d, email).0.users);
      forall e1, e2 | e1 in users' && e2 in users' && e1 != e2
        ensures users'[e1].id != users'[e2].id
      {
        if e1 != email && e2 != email {
          assert users'[e1] == users[e1] && users'[e2] == users[e2];
        }
      }
    }
  }

  // ---------------------------------------------------------------------------
  // Revocation ledger
  // ---------------------------------------------------------------------------

  /** After revoking a token it reads as revoked. */
  lemma RevokedAfterRevoke(d: Document, token: string, now: Time)
    ensures IsRevoked(RecordRevocation(d, token, now), token)
  {
  }

  /** Revoking twice is the same as revoking once: the first timestamp stays,
      and revoking an already revoked token writes nothing. */
  lemma RevokeIsIdempotent(d: Document, token: string, first: Time, second: Time)
    ensures RecordRevocation(RecordRevocation(d, token, first), token, second) == RecordRevocation(d, token, first)
    ensures IsRevoked(d, token) ==> RecordRevocation(d, token, second) == d
  {
  }

  /** A revocation adds exactly the one key: every other entry keeps its
      timestamp, and chirps and users are untouched. */
  lemma RevokeAddsOnlyThatToken(d: Document, token: string, now: Time)
    ensures var d' := RecordRevocation(d, token, now);
      && Entries(d'.revokedUserTokens).Keys == Entries(d.revokedUserTokens).Keys + {token}
      && (forall t :: t in Entries(d.revokedUserTokens) ==> Entries(d'.revokedUserTokens)[t] == Entries(d.revokedUserTokens)[t])
      && (token !in Entries(d.revokedUserTokens) ==> Entries(d'.revokedUserTokens)[token] == now)
      && d'.chirps == d.chirps && d'.users == d.users
  {
  }

  /** A token absent from the ledger, or any token when the ledger is nil or
      empty, is not revoked. */
  lemma NotRevokedWhenAbsent(d: Document, token: string)
    ensures d.revokedUserTokens == None ==> !IsRevoked(d, token)
    ensures d.revokedUserTokens == Some(map[]) ==> !IsRevoked(d, token)
    ensures IsRevoked(d, token) <==> token in Entries(d.revokedUserTokens)
  {
  }

  /** Revocation is never undone by a later revocation of any token. */
  lemma RevocationIsPermanent(d: Document, token: string, other: string, now: Time)
    requires IsRevoked(d, token)
    ensures IsRevoked(RecordRevocation(d, other, now), token)
  {
  }
}
