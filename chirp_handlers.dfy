/**
 * The chirp handlers: creating a chirp (with and without an author),
 * listing chirps with the author filter and the sort order, reading one
 * chirp and deleting one. Fetching one author's chirps and deleting a chirp
 * are store calls that are not part of this model; their results are
 * parameters.
 */
module ChirpHandlers {
  import opened Wrappers
  import opened Decimal
  import opened Database
  import opened Tokens
  import opened Responses
  import opened ChirpText
  import opened ChirpSort

  /** `CreateChirp`: the bearer token's subject is the author; a body over 140
      bytes is refused, and an accepted body is stored cleaned. The token's
      issuer and validity flag are not consulted. */
  function CreateChirp(header: string, parse: string -> ParsedToken, body: string): (r: Outcome)
    ensures var p := parse(TrimBearer(header));
      r.effect.ChirpInsert? <==> header != "" && p.Parsed? && !TooLong(body) && Atoi(p.subject).Some?
    ensures r.effect.ChirpInsert? ==>
      && r.effect.body == Cleaned(body)
      && Some(r.effect.authorId) == Atoi(parse(TrimBearer(header)).subject)
    ensures !r.effect.ChirpInsert? ==> r.effect == NoEffect
    ensures r.status == StatusCreated <==> r.effect.ChirpInsert?
    ensures header == "" ==> r == Refuse(StatusUnauthorized)
    ensures header != "" && parse(TrimBearer(header)).ParseError? ==> r == Refuse(StatusInternalServerError)
    ensures header != "" && parse(TrimBearer(header)).Parsed? && TooLong(body) ==> r == Refuse(StatusBadRequest)
    ensures var p := parse(TrimBearer(header));
      header != "" && p.Parsed? && !TooLong(body) && Atoi(p.subject).None?
      ==> r == Refuse(StatusInternalServerError)
  {
    if header == "" then Refuse(StatusUnauthorized)
    else
      match parse(TrimBearer(header))
      case ParseError => Refuse(StatusInternalServerError)
      case Parsed(_, _, subject) =>
        if TooLong(body) then Refuse(StatusBadRequest)
        else
          match Atoi(subject)
          case None => Refuse(StatusInternalServerError)
          case Some(authorId) => Outcome(StatusCreated, ChirpInsert(Cleaned(body), authorId))
  }

  /** The unauthenticated `createChirp` of the older handler set: the length
      guard, then the cleaned body is stored. */
  function CreateChirpUnattributed(body: string): (r: Outcome)
    ensures r.status == StatusBadRequest <==> TooLong(body)
    ensures TooLong(body) ==> r.effect == NoEffect
    ensures !TooLong(body) ==> r == Outcome(StatusCreated, UnattributedChirpInsert(Cleaned(body)))
  {
    if TooLong(body) then Refuse(StatusBadRequest)
    else Outcome(StatusCreated, UnattributedChirpInsert(Cleaned(body)))
  }

  /** Which store read `getChirps` makes for the `author_id` parameter. */
  datatype ChirpQuery = AllChirps | ChirpsByAuthor(authorId: int)

  /** `getChirps`: every chirp when the parameter is empty or not a number,
      otherwise the chirps of that author. */
  function ChooseChirpQuery(authorIdParam: string): (q: ChirpQuery)
    ensures q.AllChirps? <==> Atoi(authorIdParam).None?
    ensures q.ChirpsByAuthor? ==> Atoi(authorIdParam) == Some(q.authorId)
  {
    var id := Atoi(authorIdParam);
    if authorIdParam == "" || id.None? then AllChirps else ChirpsByAuthor(id.value)
  }

  /** `GetChirps`: reads the chirps `getChirps` chooses (`byAuthor` stands for
      what the store returns for one author) and sorts them by id. */
  method GetChirps(db: DB, authorIdParam: string, sortParam: string, byAuthor: seq<Chirp>)
    returns (chirps: array<Chirp>, ghost fetched: seq<Chirp>, ghost keys: seq<int>)
    ensures fresh(chirps)
    ensures SortedBy(chirps[..], sortParam == DescOrder)
    ensures multiset(chirps[..]) == multiset(fetched)
    ensures ChooseChirpQuery(authorIdParam).ChirpsByAuthor? ==> fetched == byAuthor
    ensures ChooseChirpQuery(authorIdParam).AllChirps? ==>
      && |keys| == |fetched| == |db.ChirpMap()|
      && (forall k :: k in keys <==> k in db.ChirpMap())
      && (forall i, j :: 0 <= i < j < |keys| ==> keys[i] != keys[j])
      && (forall i :: 0 <= i < |fetched| ==> keys[i] in db.ChirpMap() && fetched[i] == db.ChirpMap()[keys[i]])
    ensures ChooseChirpQuery(authorIdParam).AllChirps? ==>
      && chirps.Length == |db.ChirpMap()|
      && (forall k :: k in db.ChirpMap() ==> db.ChirpMap()[k] in chirps[..])
      && (forall i :: 0 <= i < chirps.Length ==> chirps[i] in db.ChirpMap().Values)
    ensures ChooseChirpQuery(authorIdParam).AllChirps? && ChirpsKeyedById(db.ChirpMap()) ==>
      StrictlySortedBy(chirps[..], sortParam == DescOrder)
  {
    var read: seq<Chirp>;
    if ChooseChirpQuery(authorIdParam).AllChirps? {
      read, keys := db.GetChirps();
    } else {
      read, keys := byAuthor, [];
    }
    fetched := read;
    chirps := SortedCopy(read, sortParam);
  }

  /** The fetched chirps, copied into a fresh array and sorted by id as the
      `sort` parameter asks. */
  method SortedCopy(read: seq<Chirp>, sortParam: string) returns (chirps: array<Chirp>)
    ensures fresh(chirps)
    ensures SortedBy(chirps[..], sortParam == DescOrder)
    ensures chirps.Length == |read| && multiset(chirps[..]) == multiset(read)
    ensures forall c :: c in read ==> c in chirps[..]
    ensures forall i :: 0 <= i < chirps.Length ==> chirps[i] in read
    ensures DistinctIds(read) ==> StrictlySortedBy(chirps[..], sortParam == DescOrder)
  {
    chirps := new Chirp[|read|](i requires 0 <= i < |read| => read[i]);
    assert chirps[..] == read;
    SortChirpsById(chirps, sortParam);
    forall c | c in read
      ensures c in chirps[..]
    {
      assert c in multiset(read);
    }
    forall i | 0 <= i < chirps.Length
      ensures chirps[i] in read
    {
      assert chirps[i] in multiset(chirps[..]);
    }
  }

  /** `GetChirp`: a path id that is not a number is 400, an id with no
      chirp 404. */
  function GetChirp(chirpIdParam: string, d: Document): (r: Result<Chirp, Status>)
    ensures r.Ok? <==> Atoi(chirpIdParam).Some? && Atoi(chirpIdParam).value in Entries(d.chirps)
    ensures r.Ok? ==> r.value == Entries(d.chirps)[Atoi(chirpIdParam).value]
    ensures r == Err(StatusBadRequest) <==> Atoi(chirpIdParam).None?
    ensures r.Err? ==> r.error in {StatusBadRequest, StatusNotFound}
  {
    match Atoi(chirpIdParam)
    case None => Err(StatusBadRequest)
    case Some(id) => if id in Entries(d.chirps) then Ok(Entries(d.chirps)[id]) else Err(StatusNotFound)
  }

  /** `DeleteChirp`: the chirp is looked up before the caller is identified,
      and only its author may delete it. `deleted` is what the store's delete
      returned (`None` for an error). */
  function DeleteChirp(chirpIdParam: string, d: Document, header: string, parse: string -> ParsedToken,
                       deleted: Option<bool>): (r: Outcome)
    ensures var chirps := Entries(d.chirps);
      var id := Atoi(chirpIdParam);
      var p := parse(TrimBearer(header));
      r.effect.ChirpDeletion? <==>
        && id.Some? && id.value in chirps
        && header != "" && p.Parsed? && Atoi(p.subject) == Some(chirps[id.value].authorId)
    ensures r.effect.ChirpDeletion? ==> r.effect.chirpId == Entries(d.chirps)[Atoi(chirpIdParam).value].id
    ensures !r.effect.ChirpDeletion? ==> r.effect == NoEffect
    ensures r.status == StatusOK <==> r.effect.ChirpDeletion? && deleted == Some(true)
    ensures r.effect.ChirpDeletion? && deleted != Some(true) ==> r.status == StatusInternalServerError
    ensures chirpIdParam == "" ==> r == Refuse(StatusBadRequest)
    ensures chirpIdParam != "" && Atoi(chirpIdParam).None? ==> r == Refuse(StatusInternalServerError)
    ensures var id := Atoi(chirpIdParam);
      id.Some? && id.value !in Entries(d.chirps) ==> r == Refuse(StatusNotFound)
    ensures var id := Atoi(chirpIdParam);
      id.Some? && id.value in Entries(d.chirps) && header == "" ==> r == Refuse(StatusUnauthorized)
    ensures var id := Atoi(chirpIdParam);
      var p := parse(TrimBearer(header));
      id.Some? && id.value in Entries(d.chirps) && header != "" && (p.ParseError? || Atoi(p.subject).None?)
      ==> r == Refuse(StatusInternalServerError)
    ensures var id := Atoi(chirpIdParam);
      var p := parse(TrimBearer(header));
      && id.Some? && id.value in Entries(d.chirps) && header != "" && p.Parsed? && Atoi(p.subject).Some?
      && Atoi(p.subject).value != Entries(d.chirps)[id.value].authorId
      ==> r == Refuse(StatusForbidden)
  {
    if chirpIdParam == "" then Refuse(StatusBadRequest)
    else
      match Atoi(chirpIdParam)
      case None => Refuse(StatusInternalServerError)
      case Some(chirpId) =>
        var chirps := Entries(d.chirps);
        if chirpId !in chirps then Refuse(StatusNotFound)
        else
          var chirp := chirps[chirpId];
          if header == "" then Refuse(StatusUnauthorized)
          else
            match parse(TrimBearer(header))
            case ParseError => Refuse(StatusInternalServerError)
            case Parsed(_, _, subject) =>
              match Atoi(subject)
              case None => Refuse(StatusInternalServerError)
              case Some(userId) =>
                if chirp.authorId != userId then Refuse(StatusForbidden)
                else Outcome(if deleted == Some(true) then StatusOK else StatusInternalServerError, ChirpDeletion(chirp.id))
  }

  // ---------------------------------------------------------------------------
  // Properties
  // ---------------------------------------------------------------------------

  /** A body over 140 bytes is refused with 400 and never stored, and one of
      exactly 140 bytes is stored (given a usable token). */
  lemma LengthLimitIsInclusive(header: string, parse: string -> ParsedToken, body: string)
    requires header != "" && parse(TrimBearer(header)).Parsed?
    requires Atoi(parse(TrimBearer(header)).subject).Some?
    ensures TooLong(body) ==> CreateChirp(header, parse, body) == Refuse(StatusBadRequest)
    ensures Utf8Len(body) == 140 ==> CreateChirp(header, parse, body).effect.ChirpInsert?
    ensures Utf8Len(body) == 140 ==> CreateChirpUnattributed(body).status == StatusCreated
  {
  }

  /** What a created chirp stores fits the limit: cleaning never lengthens an
      accepted body past 140 bytes. */
  lemma StoredBodyFits(header: string, parse: string -> ParsedToken, body: string)
    requires CreateChirp(header, parse, body).effect.ChirpInsert?
    ensures !TooLong(CreateChirp(header, parse, body).effect.body)
  {
    CleanedNotLonger(body);
  }

  /** A user id written by the token issuer as the author filter selects that
      author's chirps; a parameter that is not a number selects all. */
  lemma AuthorFilterReadsIssuedIds(n: int)
    requires MinInt64 <= n <= MaxInt64
    ensures ChooseChirpQuery(Itoa(n)) == ChirpsByAuthor(n)
    ensures ChooseChirpQuery("") == AllChirps
    ensures ChooseChirpQuery("me") == AllChirps
  {
    AtoiItoa(n);
  }

  /** A chirp that does not exist is 404 before any authorisation check:
      whatever the header and token, nothing is deleted. */
  lemma MissingChirpIsNotFound(chirpId: int, d: Document, header: string, parse: string -> ParsedToken,
                               deleted: Option<bool>)
    requires MinInt64 <= chirpId <= MaxInt64
    requires chirpId !in Entries(d.chirps)
    ensures DeleteChirp(Itoa(chirpId), d, header, parse, deleted) == Refuse(StatusNotFound)
  {
    AtoiItoa(chirpId);
  }

  /** A token whose subject is another user's id gets 403 and deletes
      nothing. */
  lemma OnlyAuthorMayDelete(chirpId: int, d: Document, header: string, parse: string -> ParsedToken,
                            deleted: Option<bool>, userId: int)
    requires MinInt64 <= chirpId <= MaxInt64
    requires chirpId in Entries(d.chirps) && Entries(d.chirps)[chirpId].authorId != userId
    requires header != "" && parse(TrimBearer(header)).Parsed?
    requires Atoi(parse(TrimBearer(header)).subject) == Some(userId)
    ensures DeleteChirp(Itoa(chirpId), d, header, parse, deleted) == Refuse(StatusForbidden)
  {
    AtoiItoa(chirpId);
  }

  /** While every chirp is stored under its own id (which creates keep, see
      `InsertChirpKeepsKeyedById`), the chirp deleted is the one the path
      names. */
  lemma DeletesRequestedChirp(chirpId: int, d: Document, header: string, parse: string -> ParsedToken,
                              deleted: Option<bool>)
    requires MinInt64 <= chirpId <= MaxInt64 && ChirpsKeyedById(Entries(d.chirps))
    requires DeleteChirp(Itoa(chirpId), d, header, parse, deleted).effect.ChirpDeletion?
    ensures DeleteChirp(Itoa(chirpId), d, header, parse, deleted).effect.chirpId == chirpId
  {
    AtoiItoa(chirpId);
  }

  /** Creating and deleting chirps do not check the token's issuer: a refresh
      token, which `UpdateUser` refuses, is enough for both. */
  lemma RefreshTokenAuthorisesChirpWrites(chirpId: int, d: Document, header: string, parse: string -> ParsedToken,
                                          body: string, deleted: Option<bool>, userId: int)
    requires MinInt64 <= chirpId <= MaxInt64 && MinInt64 <= userId <= MaxInt64
    requires header != "" && parse(TrimBearer(header)) == Parsed(true, RefreshTokenIssuer, Itoa(userId))
    requires !TooLong(body)
    requires chirpId in Entries(d.chirps) && Entries(d.chirps)[chirpId].authorId == userId
    ensures CreateChirp(header, parse, body).effect == ChirpInsert(Cleaned(body), userId)
    ensures DeleteChirp(Itoa(chirpId), d, header, parse, deleted).effect.ChirpDeletion?
  {
    AtoiItoa(chirpId);
    AtoiItoa(userId);
  }
}
