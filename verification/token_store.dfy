/**
 A model of the server's brokerage access-token store: one file that holds at
 most one token record. The file is abstracted to a single slot, the wall clock
 to an explicit instant `now`, and a throwing file-system call to an explicit
 `Io` argument. Every operation maps the slot (and its inputs) to a `Step`:
 the slot afterwards plus what the operation returned.
 */
module TokenStore {

  datatype Option<+T> = None | Some(value: T)

  /** The record persisted in the token file.
      `expires` is what decoding `expires_dt` with the JavaScript `Date`
      constructor yields: an instant, or `None` for an invalid date. */
  datatype TokenData = TokenData(token: string, expires: Option<int>, tokenType: string, createdAt: int)

  /** What a caller hands to `SaveToken`: a record without `createdAt`. */
  datatype TokenPayload = TokenPayload(token: string, expires: Option<int>, tokenType: string)

  /** The token file: absent, present but not readable as a record, or holding one. */
  datatype Store = Empty | Corrupt | Holds(record: TokenData)

  /** Whether the read, write or unlink the operation performs throws. */
  datatype Io = Succeeds | Throws

  datatype StorageError = WriteFailed | UnlinkFailed

  /** The outcome of an operation that returns nothing but may throw. */
  datatype Outcome = Done | Failed(error: StorageError)

  /** The slot after an operation, and the operation's return value. */
  datatype Step<+R> = Step(store: Store, result: R)

  /** The expiry test of the load path: `now >= expiresDate`. A comparison
      with an invalid date is false, so such a record never expires. */
  predicate Expired(d: TokenData, now: int)
    ensures d.expires == Some(now) ==> Expired(d, now)
    ensures d.expires == None ==> !Expired(d, now)
    ensures Expired(d, now) ==> d.expires.Some? && d.expires.value <= now
  {
    match d.expires
    case Some(e) => now >= e
    case None => false
  }

  /** The slot holds a record a load at `now` would hand out. */
  predicate Live(s: Store, now: int) {
    s.Holds? && !Expired(s.record, now)
  }

  /** Stamps the payload with the write time and overwrites the slot.
      A failing write propagates and leaves the slot as it was. */
  function SaveToken(s: Store, p: TokenPayload, now: int, io: Io): (r: Step<Outcome>)
    ensures r.result == Done <==> io == Succeeds
    ensures r.result == Done ==>
              && r.store.Holds?
              && r.store.record.token == p.token
              && r.store.record.expires == p.expires
              && r.store.record.tokenType == p.tokenType
              && r.store.record.createdAt == now
    ensures r.result.Failed? ==> r.store == s && r.result.error == WriteFailed
  {
    match io
    case Succeeds => Step(Holds(TokenData(p.token, p.expires, p.tokenType, now)), Done)
    case Throws => Step(s, Failed(WriteFailed))
  }

  /** Removes the token file if it exists. On an absent file nothing is
      attempted, so nothing can fail; a failing unlink propagates. */
  function DeleteToken(s: Store, io: Io): (r: Step<Outcome>)
    ensures r.result == Done <==> r.store == Empty
    ensures s == Empty ==> r == Step(Empty, Done)
    ensures r.result.Failed? <==> s != Empty && io == Throws
    ensures r.result.Failed? ==> r.store == s && r.result.error == UnlinkFailed
  {
    if s == Empty then Step(Empty, Done)
    else match io
      case Succeeds => Step(Empty, Done)
      case Throws => Step(s, Failed(UnlinkFailed))
  }

  /** Reads the slot. An absent or unreadable file yields no record; an
      expired record is deleted and yields no record; otherwise the stored
      record is returned. Any throw, including one from the delete of an
      expired record, is swallowed: no record, and the slot is untouched. */
  function LoadToken(s: Store, now: int, io: Io): (r: Step<Option<TokenData>>)
    ensures r.result.Some? ==> s == Holds(r.result.value) && r.store == s && !Expired(r.result.value, now)
    ensures r.store == s || (r.store == Empty && s.Holds? && Expired(s.record, now))
    ensures io == Succeeds ==> (r.result.Some? <==> Live(s, now))
  {
    match s
    case Empty => Step(Empty, None)
    case Corrupt => Step(Corrupt, None)
    case Holds(d) =>
      if io == Throws then Step(s, None)
      else if Expired(d, now) then
        var del := DeleteToken(s, io);
        Step(del.store, None)
      else Step(s, Some(d))
  }

  /** The bearer string of whatever `LoadToken` returns, with the same
      effect on the slot. */
  function GetValidToken(s: Store, now: int, io: Io): (r: Step<Option<string>>)
    ensures r.store == LoadToken(s, now, io).store
    ensures r.result.Some? <==> LoadToken(s, now, io).result.Some?
    ensures r.result.Some? ==> r.result.value == LoadToken(s, now, io).result.value.token
  {
    var loaded := LoadToken(s, now, io);
    match loaded.result
    case Some(d) => Step(loaded.store, Some(d.token))
    case None => Step(loaded.store, None)
  }

  /** An empty slot loads as nothing and stays empty, whatever the file system does. */
  lemma LoadEmpty(now: int, io: Io)
    ensures LoadToken(Empty, now, io) == Step(Empty, None)
  {
  }

  /** A record whose expiry is at or before `now` is never handed out; when
      the delete succeeds the slot is empty afterwards, and a second load
      also yields nothing. The boundary instant counts as expired. */
  lemma LoadExpired(d: TokenData, now: int)
    requires Expired(d, now)
    ensures LoadToken(Holds(d), now, Succeeds) == Step(Empty, None)
    ensures LoadToken(LoadToken(Holds(d), now, Succeeds).store, now, Succeeds) == Step(Empty, None)
  {
  }

  /** Expiry is permanent: a record expired at `now` is expired at every later instant. */
  lemma ExpiredStaysExpired(d: TokenData, now: int, later: int)
    requires Expired(d, now) && now <= later
    ensures Expired(d, later)
    ensures LoadToken(Holds(d), later, Succeeds).result == None
  {
  }

  /** A record whose expiry lies after `now` is returned unchanged and the slot is kept. */
  lemma LoadLive(d: TokenData, now: int)
    requires d.expires.Some? && now < d.expires.value
    ensures LoadToken(Holds(d), now, Succeeds) == Step(Holds(d), Some(d))
  {
  }

  /** A record whose expiry does not decode to a valid date is returned at every instant. */
  lemma LoadInvalidExpiry(d: TokenData, now: int)
    requires d.expires == None
    ensures LoadToken(Holds(d), now, Succeeds) == Step(Holds(d), Some(d))
  {
  }

  /** Unreadable content yields no record but is not deleted. */
  lemma LoadCorrupt(now: int, io: Io)
    ensures LoadToken(Corrupt, now, io) == Step(Corrupt, None)
  {
  }

  /** A throwing read or unlink inside a load is swallowed: no record, slot untouched,
      so an expired record survives a failed delete. */
  lemma LoadSwallowsFault(s: Store, now: int)
    ensures LoadToken(s, now, Throws) == Step(s, None)
  {
  }

  /** With a working file system, loading twice at the same instant is the same as loading once. */
  lemma LoadIdempotent(s: Store, now: int)
    ensures var once := LoadToken(s, now, Succeeds);
            LoadToken(once.store, now, Succeeds) == once
  {
  }

  /** Deleting twice is the same as deleting once, and the slot ends empty. */
  lemma DeleteIdempotent(s: Store, io2: Io)
    ensures DeleteToken(DeleteToken(s, Succeeds).store, io2) == Step(Empty, Done)
    ensures DeleteToken(s, Succeeds).store == Empty
  {
  }

  /** A save replaces the whole previous record: what is stored afterwards
      depends only on the payload and the write time. */
  lemma SaveOverwrites(s1: Store, s2: Store, p: TokenPayload, now: int)
    ensures SaveToken(s1, p, now, Succeeds) == SaveToken(s2, p, now, Succeeds)
  {
  }

  /** Round trip: a successful save followed by a load before the saved expiry
      returns a record carrying the payload's token, expiry and type,
      stamped with the write time. */
  lemma SaveThenLoad(s: Store, p: TokenPayload, saved: int, now: int)
    requires p.expires.Some? && now < p.expires.value
    ensures var d := TokenData(p.token, p.expires, p.tokenType, saved);
            LoadToken(SaveToken(s, p, saved, Succeeds).store, now, Succeeds) == Step(Holds(d), Some(d))
    ensures GetValidToken(SaveToken(s, p, saved, Succeeds).store, now, Succeeds).result == Some(p.token)
  {
  }

  /** A saved record whose expiry has been reached loads as nothing and is removed. */
  lemma SaveThenLoadExpired(s: Store, p: TokenPayload, saved: int, now: int)
    requires p.expires.Some? && now >= p.expires.value
    ensures LoadToken(SaveToken(s, p, saved, Succeeds).store, now, Succeeds) == Step(Empty, None)
    ensures GetValidToken(SaveToken(s, p, saved, Succeeds).store, now, Succeeds) == Step(Empty, None)
  {
  }

  /** After a successful delete no token is handed out until the next save. */
  lemma DeleteThenGet(s: Store, now: int, io: Io)
    ensures GetValidToken(DeleteToken(s, Succeeds).store, now, io) == Step(Empty, None)
  {
  }
}
