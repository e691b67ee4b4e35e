/**
 * The server's unlock lifecycle (backend/src/routes/sites.ts): the readiness
 * predicate and countdown, and the create / update / request-unlock /
 * cancel-unlock / delete handlers over the database. Every handler first
 * looks the site up by id AND owner; each is a read-check-write sequence
 * with early returns, taken here as one atomic step.
 */
module SitesRoutes {
  import opened Common
  import opened Schema

  /** Six hours, in milliseconds. */
  const UNLOCK_DELAY_MS: int := 6 * 60 * 60 * 1000

  /** The cooldown has been requested and has fully elapsed at `now`. */
  function IsUnlockReady(unlockRequestedAt: Option<Instant>, now: Instant): bool
  {
    unlockRequestedAt.Some? && now - unlockRequestedAt.value >= UNLOCK_DELAY_MS
  }

  /** Milliseconds of cooldown left at `now`; the full delay when no unlock was requested. */
  function GetUnlockTimeRemaining(unlockRequestedAt: Option<Instant>, now: Instant): (r: int)
    ensures r >= 0
  {
    if unlockRequestedAt.None? then UNLOCK_DELAY_MS
    else
      var elapsed := now - unlockRequestedAt.value;
      if UNLOCK_DELAY_MS - elapsed > 0 then UNLOCK_DELAY_MS - elapsed else 0
  }

  /** Without a request a site is never ready and the countdown shows the whole delay. */
  lemma NotRequestedNeverReady(now: Instant)
    ensures !IsUnlockReady(None, now)
    ensures GetUnlockTimeRemaining(None, now) == UNLOCK_DELAY_MS
  {
  }

  /** With a request, ready means exactly that no time remains. */
  lemma ReadyIffNothingRemains(requestedAt: Instant, now: Instant)
    ensures IsUnlockReady(Some(requestedAt), now) <==> GetUnlockTimeRemaining(Some(requestedAt), now) == 0
    ensures !IsUnlockReady(Some(requestedAt), now) ==>
      GetUnlockTimeRemaining(Some(requestedAt), now) == UNLOCK_DELAY_MS - (now - requestedAt) > 0
  {
  }

  /**
   * The countdown strictly decreases while it runs, never goes below zero,
   * and is exactly zero from requestedAt + delay on.
   */
  lemma CountdownRunsDown(requestedAt: Instant, now: Instant, later: Instant)
    requires now < later
    ensures var before, after := GetUnlockTimeRemaining(Some(requestedAt), now), GetUnlockTimeRemaining(Some(requestedAt), later);
      after <= before && (before > 0 ==> after < before)
    ensures GetUnlockTimeRemaining(Some(requestedAt), requestedAt + UNLOCK_DELAY_MS) == 0
    ensures requestedAt <= now ==> GetUnlockTimeRemaining(Some(requestedAt), now) <= UNLOCK_DELAY_MS
  {
  }

  /** Why a gated operation (deactivate, delete) is refused. */
  datatype LifecycleError = UnlockNotRequested | UnlockNotReady(timeRemaining: int)

  /** The gate shared by deactivation and deletion: None when the operation may proceed. */
  function UnlockGate(site: BlockedSite, now: Instant): Option<LifecycleError>
  {
    if site.unlockRequestedAt.None? then Some(UnlockNotRequested)
    else if !IsUnlockReady(site.unlockRequestedAt, now) then
      Some(UnlockNotReady(GetUnlockTimeRemaining(site.unlockRequestedAt, now)))
    else None
  }

  /** The gate opens exactly when the site is unlock-ready; a "not ready" refusal carries a positive remainder. */
  lemma UnlockGateOutcomes(site: BlockedSite, now: Instant)
    ensures UnlockGate(site, now).None? <==> IsUnlockReady(site.unlockRequestedAt, now)
    ensures UnlockGate(site, now) == Some(UnlockNotRequested) <==> site.unlockRequestedAt.None?
    ensures UnlockGate(site, now).Some? && UnlockGate(site, now).value.UnlockNotReady? ==>
      site.unlockRequestedAt.Some? &&
      UnlockGate(site, now).value.timeRemaining == UNLOCK_DELAY_MS - (now - site.unlockRequestedAt.value) > 0
  {
  }

  /** The site with this id, but only when it belongs to this user. */
  function Owned(t: Tables, userId: Id, id: Id): (r: Option<BlockedSite>)
    ensures r.Some? <==> id in t.sites && t.sites[id].userId == userId
    ensures r.Some? ==> r.value == t.sites[id]
  {
    if id in t.sites && t.sites[id].userId == userId then Some(t.sites[id]) else None
  }

  /** The category reference of a row can be stored (the foreign key holds). */
  predicate CategoryResolves(t: Tables, categoryId: Option<Id>)
  {
    categoryId.None? || categoryId.value in t.categories
  }

  /** `url` is a `varchar(500)` column. */
  const URL_MAX_LENGTH := 500

  /**
   * Postgres accepts the row: its owner and category exist and its url fits
   * the column. Otherwise the insert or update throws and the route answers 500.
   */
  predicate Storable(t: Tables, row: BlockedSite)
  {
    row.userId in t.users && CategoryResolves(t, row.categoryId) && |row.url| <= URL_MAX_LENGTH
  }

  /** The body of PUT /:id. `categoryId` is Some(None) for an explicit null. */
  datatype PutBody = PutBody(url: Option<string>, categoryId: Option<Option<Id>>, isActive: Option<bool>)

  /** The body of POST /. */
  datatype CreateBody = CreateBody(url: Option<string>, categoryId: Option<Id>, isActive: Option<bool>)

  /** A site as GET / returns it: the row, its windows, and the derived unlock fields. */
  datatype SiteView = SiteView(
    site: BlockedSite,
    timeWindows: seq<TimeWindow>,
    unlockReady: bool,
    timeRemaining: Option<int>)

  datatype Response =
    | SiteRow(site: BlockedSite)                                          // 200/201 with the row
    | UnlockStatus(site: BlockedSite, unlockReady: bool, timeRemaining: int)
    | Deleted                                                             // { success: true }
    | BadRequest                                                          // 400 URL required
    | NotFound                                                            // 404 Site not found
    | Refused(error: LifecycleError)                                      // 403
    | InternalError                                                       // 500: Postgres refused the write

  /** One site of GET / at `now`. */
  function View(site: BlockedSite, windows: seq<TimeWindow>, now: Instant): (v: SiteView)
    ensures v.site == site && v.timeWindows == windows
    ensures v.unlockReady == IsUnlockReady(site.unlockRequestedAt, now)
    ensures v.timeRemaining.Some? <==> site.unlockRequestedAt.Some?
    ensures v.timeRemaining.Some? ==> v.timeRemaining.value >= 0 && (v.timeRemaining.value == 0 <==> v.unlockReady)
  {
    SiteView(site, windows, IsUnlockReady(site.unlockRequestedAt, now),
      if site.unlockRequestedAt.Some? then Some(GetUnlockTimeRemaining(site.unlockRequestedAt, now)) else None)
  }

  /** `ws` holds exactly the window rows of the site `siteId`. */
  ghost predicate WindowsMatch(t: Tables, siteId: Id, ws: seq<TimeWindow>)
  {
    forall w :: w in ws <==> exists k :: k in t.windows && t.windows[k] == w && w.blockedSiteId == siteId
  }

  /** One entry of GET /: an owned site, with its windows and its unlock state at `now`. */
  ghost predicate Listed(t: Tables, userId: Id, now: Instant, v: SiteView)
  {
    && Owned(t, userId, v.site.id) == Some(v.site)
    && v == View(v.site, v.timeWindows, now)
    && WindowsMatch(t, v.site.id, v.timeWindows)
  }

  /** The window rows of one site, in no particular order (the query has no ORDER BY), each once. */
  method WindowsOfSite(t: Tables, siteId: Id) returns (ws: seq<TimeWindow>)
    requires KeysMatch(t)
    ensures WindowsMatch(t, siteId, ws)
    ensures forall i, j :: 0 <= i < j < |ws| ==> ws[i].id != ws[j].id
  {
    ws := [];
    var todo := t.windows.Keys;
    while todo != {}
      invariant todo <= t.windows.Keys
      invariant forall w :: w in ws <==> exists k :: k in t.windows && k !in todo && t.windows[k] == w && w.blockedSiteId == siteId
      invariant forall i :: 0 <= i < |ws| ==> ws[i].id in t.windows && ws[i].id !in todo
      invariant forall i, j :: 0 <= i < j < |ws| ==> ws[i].id != ws[j].id
      decreases |todo|
    {
      var k :| k in todo;
      var w := t.windows[k];
      if w.blockedSiteId == siteId {
        ws := ws + [w];
      }
      todo := todo - {k};
    }
  }

  /** GET / — every site of the caller, once each, with its windows and its unlock state at `now`. */
  method ListSites(db: Database, userId: Id, now: Instant) returns (r: seq<SiteView>)
    requires db.Valid()
    ensures forall i :: 0 <= i < |r| ==> Listed(db.tables, userId, now, r[i])
    ensures forall id :: Owned(db.tables, userId, id).Some? ==> exists i :: 0 <= i < |r| && r[i].site.id == id
    ensures forall i, j :: 0 <= i < j < |r| ==> r[i].site.id != r[j].site.id
  {
    r := ListOwned(db.tables, userId, now);
  }

  /** The loop of GET / over a table whose keys match their rows. */
  method ListOwned(t: Tables, userId: Id, now: Instant) returns (r: seq<SiteView>)
    requires KeysMatch(t)
    ensures forall i :: 0 <= i < |r| ==> Listed(t, userId, now, r[i])
    ensures forall id :: Owned(t, userId, id).Some? ==> exists i :: 0 <= i < |r| && r[i].site.id == id
    ensures forall i, j :: 0 <= i < j < |r| ==> r[i].site.id != r[j].site.id
  {
    r := [];
    var todo := t.sites.Keys;
    while todo != {}
      invariant todo <= t.sites.Keys
      invariant forall i :: 0 <= i < |r| ==> r[i].site.id !in todo && Listed(t, userId, now, r[i])
      invariant forall id :: id !in todo && Owned(t, userId, id).Some? ==> exists i :: 0 <= i < |r| && r[i].site.id == id
      invariant forall i, j :: 0 <= i < j < |r| ==> r[i].site.id != r[j].site.id
      decreases |todo|
    {
      var key :| key in todo;
      var site := t.sites[key];
      assert site.id == key;
      ghost var before := r;
      if site.userId == userId {
        var windows := WindowsOfSite(t, key);
        var v := View(site, windows, now);
        assert Listed(t, userId, now, v);
        r := r + [v];
        assert forall i :: 0 <= i < |before| ==> r[i] == before[i];
      }
      todo := todo - {key};
      forall id | id !in todo && Owned(t, userId, id).Some?
        ensures exists i :: 0 <= i < |r| && r[i].site.id == id
      {
        if id == key {
          assert r[|r| - 1].site.id == id;
        } else {
          var i :| 0 <= i < |before| && before[i].site.id == id;
          assert r[i] == before[i];
        }
      }
    }
  }

  /** What a PUT decides for an owned site: a refusal, or the row to write. */
  datatype PutOutcome = PutRefused(error: LifecycleError) | PutWrite(row: BlockedSite)

  /** The decision part of PUT /:id (sites.ts:100-134), the reference for the handler. */
  function PutDecision(site: BlockedSite, body: PutBody, now: Instant): PutOutcome
  {
    var isDeactivating := body.isActive == Some(false) && site.isActive;
    if isDeactivating && UnlockGate(site, now).Some? then PutRefused(UnlockGate(site, now).value)
    else
      var shouldClearUnlock := body.isActive == Some(true) || !isDeactivating;
      PutWrite(site.(
        url := if body.url.Some? && body.url.value != "" then body.url.value else site.url,
        categoryId := if body.categoryId.Some? then body.categoryId.value else site.categoryId,
        isActive := if body.isActive.Some? then body.isActive.value else site.isActive,
        unlockRequestedAt := if shouldClearUnlock then None else site.unlockRequestedAt))
  }

  /** A premature deactivation of an active site is refused with the gate's reason. */
  lemma PutRefusesPrematureDeactivation(site: BlockedSite, body: PutBody, now: Instant)
    requires site.isActive && body.isActive == Some(false)
    ensures site.unlockRequestedAt.None? ==> PutDecision(site, body, now) == PutRefused(UnlockNotRequested)
    ensures site.unlockRequestedAt.Some? && !IsUnlockReady(site.unlockRequestedAt, now) ==>
      PutDecision(site, body, now).PutRefused? &&
      PutDecision(site, body, now).error.UnlockNotReady? &&
      PutDecision(site, body, now).error.timeRemaining > 0
    ensures PutDecision(site, body, now).PutRefused? <==> !IsUnlockReady(site.unlockRequestedAt, now)
  {
  }

  /** Only a deactivation of an active site can be refused. */
  lemma PutOnlyGatesDeactivation(site: BlockedSite, body: PutBody, now: Instant)
    requires !(site.isActive && body.isActive == Some(false))
    ensures PutDecision(site, body, now).PutWrite?
  {
  }

  /**
   * The timestamp rule: every write that is not a deactivation clears the
   * unlock request (reactivation included), while a successful deactivation
   * keeps the timestamp it was granted on.
   */
  lemma PutTimestampRule(site: BlockedSite, body: PutBody, now: Instant)
    ensures PutDecision(site, body, now).PutWrite? ==>
      var row := PutDecision(site, body, now).row;
      if site.isActive && body.isActive == Some(false)
      then row.unlockRequestedAt == site.unlockRequestedAt && row.unlockRequestedAt.Some? && !row.isActive
      else row.unlockRequestedAt.None?
    ensures body.isActive == Some(true) ==>
      PutDecision(site, body, now).PutWrite? && PutDecision(site, body, now).row.unlockRequestedAt.None?
  {
  }

  /**
   * Absent fields keep the stored value (an empty url counts as absent; an
   * explicit null categoryId clears the category), and the owner, id,
   * counter and creation time are never written.
   */
  lemma PutFieldRule(site: BlockedSite, body: PutBody, now: Instant)
    requires PutDecision(site, body, now).PutWrite?
    ensures var row := PutDecision(site, body, now).row;
      && (body.url.None? || body.url == Some("") ==> row.url == site.url)
      && (body.url.Some? && body.url.value != "" ==> row.url == body.url.value)
      && (body.categoryId.None? ==> row.categoryId == site.categoryId)
      && (body.categoryId.Some? ==> row.categoryId == body.categoryId.value)
      && (body.categoryId == Some(None) ==> row.categoryId.None?)
      && (body.isActive.None? ==> row.isActive == site.isActive)
      && (body.isActive.Some? ==> row.isActive == body.isActive.value)
      && row.id == site.id && row.userId == site.userId
      && row.accessAttempts == site.accessAttempts && row.createdAt == site.createdAt
  {
  }
  // ----- a null or non-boolean isActive -----

  /**
   * A field of a JSON body: missing, an explicit null, a value of the
   * expected type, or a value of another type. For `Other`, `coerced` is what
   * Postgres's boolean input makes of the value's text (section 8.6 of the
   * PostgreSQL manual: "false", "off", "0" and the like read as false), None
   * when it rejects the text.
   */
  datatype JsonField<T> = Missing | Null | Given(value: T) | Other(coerced: Option<T>)

  /** What the write does to the `is_active` column: store a value (NULL included), or fail with a 500. */
  datatype ColumnWrite = Stored(value: Option<bool>) | Rejected

  /** PUT as written counts only the boolean `false` as deactivating (sites.ts:101). */
  function DeactivatingAsWritten(stored: Option<bool>, isActive: JsonField<bool>): bool
  {
    isActive == Given(false) && stored == Some(true)
  }

  /**
   * The column write as written: `isActive !== undefined` passes anything but
   * a missing field to the nullable `is_active` column (sites.ts:132, schema.ts:41).
   */
  function WrittenIsActiveAsWritten(stored: Option<bool>, isActive: JsonField<bool>): ColumnWrite
  {
    match isActive
    case Missing => Stored(stored)
    case Null => Stored(None)
    case Given(b) => Stored(Some(b))
    case Other(c) => if c.Some? then Stored(c) else Rejected
  }

  /** The sync route keeps a row exactly when its `is_active` is truthy. */
  predicate SyncedAsWritten(stored: Option<bool>)
  {
    stored == Some(true)
  }

  /**
   * As written, `{"isActive": null}` or a non-boolean that Postgres reads as
   * false (such as "false" or 0) on an active site passes no gate, even with
   * no unlock request, and stores a value the sync route drops.
   */
  lemma LooseIsActiveSkipsGate()
    ensures SyncedAsWritten(Some(true))
    ensures !DeactivatingAsWritten(Some(true), Null)
    ensures WrittenIsActiveAsWritten(Some(true), Null) == Stored(None) && !SyncedAsWritten(None)
    ensures !DeactivatingAsWritten(Some(true), Other(Some(false)))
    ensures WrittenIsActiveAsWritten(Some(true), Other(Some(false))) == Stored(Some(false))
    ensures !SyncedAsWritten(Some(false))
  {
  }

  /**
   * The corrected reading: only a boolean is a value; an explicit null or a
   * value of another type leaves the field alone, like a missing one.
   */
  function ReadIsActive(isActive: JsonField<bool>): (r: Option<bool>)
    ensures r.Some? <==> isActive.Given?
    ensures isActive.Given? ==> r == Some(isActive.value)
  {
    if isActive.Given? then Some(isActive.value) else None
  }

  /**
   * With that reading, no PUT body, whatever its `isActive` holds, turns an
   * active site inactive unless it is the boolean false and the unlock
   * request is ready.
   */
  lemma PutNeverUnblocksEarly(site: BlockedSite, isActive: JsonField<bool>, body: PutBody, now: Instant)
    requires site.isActive && body.isActive == ReadIsActive(isActive)
    ensures PutDecision(site, body, now).PutWrite? && !PutDecision(site, body, now).row.isActive ==>
      isActive == Given(false) && IsUnlockReady(site.unlockRequestedAt, now)
    ensures isActive != Given(false) ==>
      PutDecision(site, body, now).PutWrite? && PutDecision(site, body, now).row.isActive
  {
  }

  /** POST / — create a site. An empty or absent url is a 400; an empty categoryId means none. */
  method Create(db: Database, userId: Id, body: CreateBody, freshId: Id, now: Instant) returns (r: Response)
    requires db.Valid() && freshId !in db.tables.sites
    modifies db
    ensures db.Valid()
    ensures body.url.None? || body.url == Some("") ==> r == BadRequest && db.tables == old(db.tables)
    ensures r.SiteRow? ==>
      && body.url.Some? && body.url.value != ""
      && r.site == NewSite(freshId, userId,
           if body.categoryId == Some("") then None else body.categoryId,
           body.url.value, body.isActive.GetOr(true), now)
      && db.tables == old(db.tables).(sites := old(db.tables).sites[freshId := r.site])
    ensures r.InternalError? ==> db.tables == old(db.tables)
    ensures r.SiteRow? || r.BadRequest? || r.InternalError?
    ensures body.url.Some? && body.url.value != "" ==>
      var row := NewSite(freshId, userId, if body.categoryId == Some("") then None else body.categoryId,
                         body.url.value, body.isActive.GetOr(true), now);
      (r.SiteRow? <==> Storable(old(db.tables), row)) && (r.InternalError? <==> !Storable(old(db.tables), row))
  {
    if body.url.None? || body.url.value == "" {
      return BadRequest;
    }
    var categoryId := if body.categoryId == Some("") then None else body.categoryId;
    var row := NewSite(freshId, userId, categoryId, body.url.value, body.isActive.GetOr(true), now);
    if !Storable(db.tables, row) {
      return InternalError;
    }
    db.tables := db.tables.(sites := db.tables.sites[freshId := row]);
    r := SiteRow(row);
  }

  /** PUT /:id — update a site, gating deactivation on a completed cooldown. */
  method Put(db: Database, userId: Id, id: Id, body: PutBody, now: Instant) returns (r: Response)
    requires db.Valid()
    modifies db
    ensures db.Valid()
    ensures match Owned(old(db.tables), userId, id)
      case None => r == NotFound && db.tables == old(db.tables)
      case Some(site) =>
        match PutDecision(site, body, now)
        case PutRefused(e) => r == Refused(e) && db.tables == old(db.tables)
        case PutWrite(row) =>
          if Storable(old(db.tables), row)
          then r == SiteRow(row) && db.tables == old(db.tables).(sites := old(db.tables).sites[id := row])
          else r == InternalError && db.tables == old(db.tables)
  {
    var found := Owned(db.tables, userId, id);
    if found.None? {
      return NotFound;
    }
    var site := found.value;

    var isDeactivating := body.isActive == Some(false) && site.isActive;
    if isDeactivating {
      if site.unlockRequestedAt.None? {
        return Refused(UnlockNotRequested);
      }
      if !IsUnlockReady(site.unlockRequestedAt, now) {
        var timeRemaining := GetUnlockTimeRemaining(site.unlockRequestedAt, now);
        return Refused(UnlockNotReady(timeRemaining));
      }
    }

    var shouldClearUnlock := body.isActive == Some(true) || !isDeactivating;
    var updated := site.(
      url := if body.url.Some? && body.url.value != "" then body.url.value else site.url,
      categoryId := if body.categoryId.Some? then body.categoryId.value else site.categoryId,
      isActive := if body.isActive.Some? then body.isActive.value else site.isActive,
      unlockRequestedAt := if shouldClearUnlock then None else site.unlockRequestedAt);
    if !Storable(db.tables, updated) {
      return InternalError;
    }
    db.tables := db.tables.(sites := db.tables.sites[id := updated]);
    r := SiteRow(updated);
  }

  /** POST /:id/request-unlock — start the cooldown; idempotent once started. */
  method RequestUnlock(db: Database, userId: Id, id: Id, now: Instant) returns (r: Response)
    requires db.Valid()
    modifies db
    ensures db.Valid()
    ensures match Owned(old(db.tables), userId, id)
      case None => r == NotFound && db.tables == old(db.tables)
      case Some(site) =>
        if site.unlockRequestedAt.Some? then
          && db.tables == old(db.tables)
          && r == UnlockStatus(site, IsUnlockReady(site.unlockRequestedAt, now),
                               GetUnlockTimeRemaining(site.unlockRequestedAt, now))
        else
          && r == UnlockStatus(site.(unlockRequestedAt := Some(now)), false, UNLOCK_DELAY_MS)
          && db.tables == old(db.tables).(sites := old(db.tables).sites[id := site.(unlockRequestedAt := Some(now))])
  {
    var found := Owned(db.tables, userId, id);
    if found.None? {
      return NotFound;
    }
    var site := found.value;
    if site.unlockRequestedAt.Some? {
      var timeRemaining := GetUnlockTimeRemaining(site.unlockRequestedAt, now);
      return UnlockStatus(site, IsUnlockReady(site.unlockRequestedAt, now), timeRemaining);
    }
    var updated := site.(unlockRequestedAt := Some(now));
    db.tables := db.tables.(sites := db.tables.sites[id := updated]);
    r := UnlockStatus(updated, false, UNLOCK_DELAY_MS);
  }

  /** The status reported for a fresh request agrees with the readiness functions. */
  lemma FreshRequestReportIsAccurate(now: Instant)
    ensures IsUnlockReady(Some(now), now) == false
    ensures GetUnlockTimeRemaining(Some(now), now) == UNLOCK_DELAY_MS
  {
  }

  /** POST /:id/cancel-unlock — forget the request, whatever state the site is in. */
  method CancelUnlock(db: Database, userId: Id, id: Id) returns (r: Response)
    requires db.Valid()
    modifies db
    ensures db.Valid()
    ensures match Owned(old(db.tables), userId, id)
      case None => r == NotFound && db.tables == old(db.tables)
      case Some(site) =>
        && r == SiteRow(site.(unlockRequestedAt := None))
        && db.tables == old(db.tables).(sites := old(db.tables).sites[id := site.(unlockRequestedAt := None)])
  {
    var found := Owned(db.tables, userId, id);
    if found.None? {
      return NotFound;
    }
    var updated := found.value.(unlockRequestedAt := None);
    db.tables := db.tables.(sites := db.tables.sites[id := updated]);
    r := SiteRow(updated);
  }

  /** DELETE /:id — gated like deactivation, whether or not the site is active; windows cascade. */
  method Delete(db: Database, userId: Id, id: Id, now: Instant) returns (r: Response)
    requires db.Valid()
    modifies db
    ensures db.Valid()
    ensures match Owned(old(db.tables), userId, id)
      case None => r == NotFound && db.tables == old(db.tables)
      case Some(site) =>
        match UnlockGate(site, now)
        case Some(e) => r == Refused(e) && db.tables == old(db.tables)
        case None => r == Deleted && db.tables == DeleteSite(old(db.tables), id)
  {
    var found := Owned(db.tables, userId, id);
    if found.None? {
      return NotFound;
    }
    var site := found.value;
    if site.unlockRequestedAt.None? {
      return Refused(UnlockNotRequested);
    }
    if !IsUnlockReady(site.unlockRequestedAt, now) {
      var timeRemaining := GetUnlockTimeRemaining(site.unlockRequestedAt, now);
      return Refused(UnlockNotReady(timeRemaining));
    }
    db.tables := DeleteSite(db.tables, id);
    r := Deleted;
  }

  /** Deletion and deactivation of an active site are refused for exactly the same reasons. */
  lemma DeleteGatedLikeDeactivation(site: BlockedSite, body: PutBody, now: Instant)
    requires site.isActive && body.isActive == Some(false)
    ensures UnlockGate(site, now).Some? <==> PutDecision(site, body, now).PutRefused?
    ensures UnlockGate(site, now).Some? ==> PutDecision(site, body, now).error == UnlockGate(site, now).value
  {
  }

  /** A second request-unlock keeps the first timestamp (idempotence). */
  method RequestUnlockTwice(db: Database, userId: Id, id: Id, t1: Instant, t2: Instant)
    requires db.Valid()
    requires id in db.tables.sites && db.tables.sites[id].userId == userId && db.tables.sites[id].unlockRequestedAt.None?
    modifies db
    ensures db.Valid()
    ensures id in db.tables.sites && db.tables.sites[id].unlockRequestedAt == Some(t1)
  {
    var first := RequestUnlock(db, userId, id, t1);
    var second := RequestUnlock(db, userId, id, t2);
  }

  /** Scenario: a delete 5 hours after the request is refused with one hour left; at 6 hours it succeeds. */
  method DeleteAfterCooldown(db: Database, userId: Id, id: Id, t: Instant)
    requires db.Valid()
    requires id in db.tables.sites && db.tables.sites[id].userId == userId
    requires db.tables.sites[id].isActive && db.tables.sites[id].unlockRequestedAt == Some(t)
    modifies db
    ensures db.Valid() && id !in db.tables.sites
  {
    var early := Delete(db, userId, id, t + 5 * 60 * 60 * 1000);
    assert early == Refused(UnlockNotReady(3600000));
    var onTime := Delete(db, userId, id, t + UNLOCK_DELAY_MS);
    assert onTime == Deleted;
  }

  /** Scenario: deactivating a site whose unlock was never requested is refused. */
  method DeactivateWithoutRequest(db: Database, userId: Id, id: Id, now: Instant) returns (r: Response)
    requires db.Valid()
    requires id in db.tables.sites && db.tables.sites[id].userId == userId
    requires db.tables.sites[id].isActive && db.tables.sites[id].unlockRequestedAt.None?
    modifies db
    ensures r == Refused(UnlockNotRequested) && db.tables == old(db.tables)
  {
    r := Put(db, userId, id, PutBody(None, None, Some(false)), now);
  }
}
