/**
 * The record store: one document with three collections (chirps keyed by id,
 * users keyed by email, revoked refresh tokens keyed by the token string).
 * Every repository operation loads the whole document, changes one map and
 * writes the document back; here the document is the field `doc` of a `DB`,
 * so a load is a read of that field and a save is an assignment to it.
 * A collection the JSON file does not mention decodes to a Go `nil` map,
 * which is `None` here and reads as empty.
 */
module Database {
  import opened Wrappers

  /** A wall-clock instant in seconds; the clock is a parameter of the model. */
  type Time = int

  datatype Chirp = Chirp(id: int, body: string, authorId: int)

  /** The zero `Chirp{}` that `GetChirp` returns beside `found == false`. */
  const ZeroChirp := Chirp(0, "", 0)

  datatype User = User(id: int, email: string)

  datatype StoreError = EmailInUse

  datatype Document = Document(
    chirps: Option<map<int, Chirp>>,
    users: Option<map<string, User>>,
    revokedUserTokens: Option<map<string, Time>>)

  /** The document that a file holding `{}` decodes to: every collection nil. */
  const EmptyDocument := Document(None, None, None)

  /** A collection as the repositories read it: nil is the empty map. */
  function Entries<K, V>(m: Option<map<K, V>>): map<K, V> {
    if m.Some? then m.value else map[]
  }

  // ---------------------------------------------------------------------------
  // The repository operations on the document, as values
  // ---------------------------------------------------------------------------

  /** `CreateChirp`: the id is the number of stored chirps plus one, and the
      chirp is stored under that id whether or not the id is already taken. */
  function InsertChirp(d: Document, body: string, authorId: int): (Document, Chirp) {
    var chirps := Entries(d.chirps);
    var chirp := Chirp(|chirps| + 1, body, authorId);
    (d.(chirps := Some(chirps[chirp.id := chirp])), chirp)
  }

  /** `CreateUser`: an email already used as a key is refused and nothing is
      written; otherwise the user gets the number of users plus one as id. */
  function InsertUser(d: Document, email: string): (Document, Result<User, StoreError>) {
    var users := Entries(d.users);
    if email in users then (d, Err(EmailInUse))
    else
      var user := User(|users| + 1, email);
      (d.(users := Some(users[email := user])), Ok(user))
  }

  /** `RevokeToken`: a token already in the ledger keeps its first timestamp
      and the document is not written; otherwise it is recorded at `now`. */
  function RecordRevocation(d: Document, token: string, now: Time): Document {
    var ledger := Entries(d.revokedUserTokens);
    if token in ledger then d else d.(revokedUserTokens := Some(ledger[token := now]))
  }

  /** `IsTokenRevoked` on a document. */
  predicate IsRevoked(d: Document, token: string) {
    token in Entries(d.revokedUserTokens)
  }

  // ---------------------------------------------------------------------------
  // Invariants that the store keeps while chirps are never deleted
  // ---------------------------------------------------------------------------

  /** The chirp ids are exactly 1..n. */
  ghost predicate ChirpIdsDense(chirps: map<int, Chirp>) {
    forall k :: k in chirps <==> 1 <= k <= |chirps|
  }

  /** Every chirp is stored under its own id. */
  ghost predicate ChirpsKeyedById(chirps: map<int, Chirp>) {
    forall k :: k in chirps ==> chirps[k].id == k
  }

  /** Every user is stored under its own email. */
  ghost predicate UsersKeyedByEmail(users: map<string, User>) {
    forall e :: e in users ==> users[e].email == e
  }

  /** The user ids are pairwise different and lie in 1..n. */
  ghost predicate UserIdsDense(users: map<string, User>) {
    && (forall e :: e in users ==> 1 <= users[e].id <= |users|)
    && (forall e1, e2 :: e1 in users && e2 in users && e1 != e2 ==> users[e1].id != users[e2].id)
  }

  ghost predicate Consistent(d: Document) {
    && ChirpIdsDense(Entries(d.chirps))
    && ChirpsKeyedById(Entries(d.chirps))
    && UsersKeyedByEmail(Entries(d.users))
    && UserIdsDense(Entries(d.users))
  }

  // ---------------------------------------------------------------------------
  // The store object
  // ---------------------------------------------------------------------------

  class DB {
    /** What the database file holds. */
    var doc: Document

    /** A store over a file that already holds `contents`. */
    constructor (contents: Document)
      ensures doc == contents
    {
      doc := contents;
    }

    function ChirpMap(): map<int, Chirp>
      reads this
    {
      Entries(doc.chirps)
    }

    function Ledger(): map<string, Time>
      reads this
    {
      Entries(doc.revokedUserTokens)
    }

    ghost predicate Valid()
      reads this
    {
      Consistent(doc)
    }

    /** Creates a new chirp and saves it to the database. */
    method CreateChirp(body: string, authorId: int) returns (chirp: Chirp)
      modifies this
      ensures (doc, chirp) == InsertChirp(old(doc), body, authorId)
      ensures old(Valid()) ==> Valid() && chirp.id !in old(ChirpMap())
      ensures ChirpsKeyedById(old(ChirpMap())) ==> ChirpsKeyedById(ChirpMap())
    {
      var d := doc;
      if d.chirps.None? {
        d := d.(chirps := Some(map[]));
      }
      var chirps := d.chirps.value;
      var id := |chirps| + 1;
      chirp := Chirp(id, body, authorId);
      chirps := chirps[chirp.id := chirp];
      d := d.(chirps := Some(chirps));
      doc := d;
      if old(Valid()) {
        InsertChirpKeepsConsistent(old(doc), body, authorId);
      }
      if ChirpsKeyedById(old(ChirpMap())) {
        InsertChirpKeepsKeyedById(old(doc), body, authorId);
      }
    }

    /** Gets a chirp by its id, if it exists. */
    method GetChirp(id: int) returns (chirp: Chirp, found: bool)
      ensures found <==> id in ChirpMap()
      ensures found ==> chirp == ChirpMap()[id]
      ensures !found ==> chirp == ZeroChirp
      ensures found && ChirpsKeyedById(ChirpMap()) ==> chirp.id == id
    {
      var d := doc;
      if d.chirps.None? || |d.chirps.value| == 0 {
        return ZeroChirp, false;
      }
      found := id in d.chirps.value;
      if !found {
        return ZeroChirp, false;
      }
      chirp := d.chirps.value[id];
    }

    /** Gets all of the existing chirps, in no particular order: `order`
        lists the id each element was read under, every id exactly once. */
    method GetChirps() returns (chirps: seq<Chirp>, ghost order: seq<int>)
      ensures |order| == |chirps| == |ChirpMap()|
      ensures forall k :: k in order <==> k in ChirpMap()
      ensures forall i, j :: 0 <= i < j < |order| ==> order[i] != order[j]
      ensures forall i :: 0 <= i < |chirps| ==> order[i] in ChirpMap() && chirps[i] == ChirpMap()[order[i]]
      ensures forall k :: k in ChirpMap() ==> ChirpMap()[k] in chirps
      ensures forall i :: 0 <= i < |chirps| ==> chirps[i] in ChirpMap().Values
      ensures ChirpsKeyedById(ChirpMap()) ==> forall i, j :: 0 <= i < j < |chirps| ==> chirps[i].id != chirps[j].id
    {
      var stored := ChirpMap();
      if |stored| == 0 {
        return [], [];
      }
      chirps := [];
      order := [];
      var pending := stored.Keys;
      while |pending| > 0
        invariant pending <= stored.Keys
        invariant |chirps| + |pending| == |stored|
        invariant |order| == |chirps|
        invariant forall i :: 0 <= i < |order| ==> order[i] in stored && order[i] !in pending && chirps[i] == stored[order[i]]
        invariant forall i, j :: 0 <= i < j < |order| ==> order[i] != order[j]
        invariant forall k :: k in stored && k !in pending ==> k in order
        decreases |pending|
      {
        KeysInhabited(pending);
        var key :| key in pending;
        chirps := chirps + [stored[key]];
        order := order + [key];
        pending := pending - {key};
      }
      forall k | k in stored
        ensures stored[k] in chirps
      {
        var i :| 0 <= i < |order| && order[i] == k;
        assert chirps[i] == stored[k];
      }
    }

    /** Creates a user with the given email and the next id. */
    method CreateUser(email: string) returns (r: Result<User, StoreError>)
      modifies this
      ensures (doc, r) == InsertUser(old(doc), email)
      ensures old(Valid()) ==> Valid()
    {
      var d := doc;
      if d.users.None? {
        d := d.(users := Some(map[]));
      }
      var users := d.users.value;
      if email in users {
        return Err(EmailInUse);
      }
      var user := User(|users| + 1, email);
      users := users[user.email := user];
      d := d.(users := Some(users));
      doc := d;
      r := Ok(user);
      if old(Valid()) {
        InsertUserKeepsConsistent(old(doc), email);
      }
    }

    /** Records the refresh token as revoked at `now`. */
    method RevokeToken(token: string, now: Time)
      modifies this
      ensures doc == RecordRevocation(old(doc), token, now)
      ensures old(Valid()) ==> Valid()
    {
      var d := doc;
      if d.revokedUserTokens.None? {
        d := d.(revokedUserTokens := Some(map[]));
      }
      if token in d.revokedUserTokens.value {
        return;
      }
      d := d.(revokedUserTokens := Some(d.revokedUserTokens.value[token := now]));
      doc := d;
    }

    /** Whether the refresh token has been revoked. */
    method IsTokenRevoked(token: string) returns (revoked: bool)
      ensures revoked <==> token in Ledger()
      ensures revoked == IsRevoked(doc, token)
    {
      var d := doc;
      if d.revokedUserTokens.None? || |d.revokedUserTokens.value| == 0 {
        return false;
      }
      revoked := token in d.revokedUserTokens.value;
    }
  }

  // ---------------------------------------------------------------------------
  // Lemmas the store methods rely on
  // ---------------------------------------------------------------------------

  /** A non-empty set of chirp ids has an element to pick. */
  lemma KeysInhabited(keys: set<int>)
    requires |keys| > 0
    ensures exists k :: k in keys
  {
    if forall k :: k !in keys {
      assert false;
    }
  }

  /** While chirp ids are exactly 1..n, the next id is fresh and the ids stay
      exactly 1..n+1. */
  lemma InsertChirpFreshWhenDense(d: Document, body: string, authorId: int)
    requires ChirpIdsDense(Entries(d.chirps))
    ensures var (d', chirp) := InsertChirp(d, body, authorId);
      && chirp.id !in Entries(d.chirps)
      && |Entries(d'.chirps)| == |Entries(d.chirps)| + 1
      && ChirpIdsDense(Entries(d'.chirps))
  {
    var chirps := Entries(d.chirps);
    var n := |chirps|;
    assert !(1 <= n + 1 <= n);
  }

  /** Every chirp stays stored under its own id across a create, whatever
      ids were taken before. */
  lemma InsertChirpKeepsKeyedById(d: Document, body: string, authorId: int)
    requires ChirpsKeyedById(Entries(d.chirps))
    ensures ChirpsKeyedById(Entries(InsertChirp(d, body, authorId).0.chirps))
  {
  }

  lemma InsertChirpKeepsConsistent(d: Document, body: string, authorId: int)
    requires Consistent(d)
    ensures Consistent(InsertChirp(d, body, authorId).0)
  {
    InsertChirpFreshWhenDense(d, body, authorId);
  }

  lemma InsertUserKeepsConsistent(d: Document, email: string)
    requires Consistent(d)
    ensures Consistent(InsertUser(d, email).0)
  {
    var users := Entries(d.users);
    if email !in users {
      var user := User(|users| + 1, email);
      var users' := users[email := user];
      assert |users'| == |users| + 1;
      forall e1, e2 | e1 in users' && e2 in users' && e1 != e2
        ensures users'[e1].id != users'[e2].id
      {
        if e1 != email && e2 != email {
          assert users'[e1] == users[e1] && users'[e2] == users[e2];
        }
      }
    }
  }
}
