/**
 * The time-window routes of the server (backend/src/routes/timeWindows.ts):
 * adding a window to a site the caller owns, and removing one, where an
 * unknown window and a window of someone else's site fail differently.
 */
module TimeWindowRoutes {
  import opened Common
  import opened Schema

  /** The body of POST /. An absent field and a JSON null are both None. */
  datatype WindowBody = WindowBody(
    blockedSiteId: Option<Id>,
    dayOfWeek: Option<int>,
    startTime: Option<string>,
    endTime: Option<string>)

  datatype WindowResponse =
    | WindowCreated(window: TimeWindow)   // 201
    | Success                             // { success: true }
    | MissingFields                       // 400
    | NotFound                            // 404
    | Unauthorized                        // 403

  /** A JSON string field is truthy: present and not empty. */
  predicate Truthy(s: Option<string>)
  {
    s.Some? && s.value != ""
  }

  /** Adding a window row whose site exists keeps the database well formed. */
  function InsertWindow(t: Tables, w: TimeWindow): (r: Tables)
    requires w.id !in t.windows
    ensures Wellformed(t) && w.blockedSiteId in t.sites ==> Wellformed(r)
    ensures r.windows.Keys == t.windows.Keys + {w.id} && r.windows[w.id] == w
    ensures forall k :: k in t.windows ==> r.windows[k] == t.windows[k]
    ensures r.users == t.users && r.categories == t.categories && r.sites == t.sites && r.quotes == t.quotes
  {
    t.(windows := t.windows[w.id := w])
  }

  /** Removing one window row; nothing references windows, so nothing cascades. */
  function RemoveWindow(t: Tables, id: Id): (r: Tables)
    ensures Wellformed(t) ==> Wellformed(r)
    ensures r.windows.Keys == t.windows.Keys - {id}
    ensures forall k :: k in r.windows ==> r.windows[k] == t.windows[k]
    ensures r.users == t.users && r.categories == t.categories && r.sites == t.sites && r.quotes == t.quotes
  {
    t.(windows := t.windows - {id})
  }

  /** Removing a window just inserted gives back the tables it was inserted into. */
  lemma RemoveAfterInsert(t: Tables, w: TimeWindow)
    requires w.id !in t.windows
    ensures RemoveWindow(InsertWindow(t, w), w.id) == t
  {
    var r := RemoveWindow(InsertWindow(t, w), w.id);
    assert r.windows == t.windows;
  }

  /** The row POST / inserts: the day is stored as given (`?? null`, so day 0 stays 0). */
  function NewWindow(id: Id, body: WindowBody, now: Instant): (w: TimeWindow)
    requires Truthy(body.blockedSiteId) && Truthy(body.startTime) && Truthy(body.endTime)
    ensures w.id == id && w.blockedSiteId == body.blockedSiteId.value && w.createdAt == now
    ensures w.dayOfWeek == body.dayOfWeek
    ensures w.startTime == body.startTime.value != "" && w.endTime == body.endTime.value != ""
  {
    TimeWindow(id, body.blockedSiteId.value, body.dayOfWeek, body.startTime.value, body.endTime.value, now)
  }

  /** POST / — add a window to a site of the caller's. */
  method CreateWindow(db: Database, userId: Id, body: WindowBody, freshId: Id, now: Instant) returns (r: WindowResponse)
    requires db.Valid() && freshId !in db.tables.windows
    modifies db
    ensures db.Valid()
    ensures !(Truthy(body.blockedSiteId) && Truthy(body.startTime) && Truthy(body.endTime)) ==>
      r == MissingFields && db.tables == old(db.tables)
    ensures Truthy(body.blockedSiteId) && Truthy(body.startTime) && Truthy(body.endTime) ==>
      var siteId := body.blockedSiteId.value;
      if siteId in old(db.tables).sites && old(db.tables).sites[siteId].userId == userId
      then r == WindowCreated(NewWindow(freshId, body, now)) &&
           db.tables == InsertWindow(old(db.tables), NewWindow(freshId, body, now))
      else r == NotFound && db.tables == old(db.tables)
  {
    if !Truthy(body.blockedSiteId) || !Truthy(body.startTime) || !Truthy(body.endTime) {
      return MissingFields;
    }
    var siteId := body.blockedSiteId.value;
    if !(siteId in db.tables.sites && db.tables.sites[siteId].userId == userId) {
      return NotFound;
    }
    var w := NewWindow(freshId, body, now);
    db.tables := InsertWindow(db.tables, w);
    r := WindowCreated(w);
  }

  /** DELETE /:id — remove a window; 404 when it does not exist, 403 when its site is not the caller's. */
  method DeleteWindow(db: Database, userId: Id, id: Id) returns (r: WindowResponse)
    requires db.Valid()
    modifies db
    ensures db.Valid()
    ensures id !in old(db.tables).windows ==> r == NotFound && db.tables == old(db.tables)
    ensures id in old(db.tables).windows ==>
      var siteId := old(db.tables).windows[id].blockedSiteId;
      if siteId in old(db.tables).sites && old(db.tables).sites[siteId].userId == userId
      then r == Success && db.tables == RemoveWindow(old(db.tables), id)
      else r == Unauthorized && db.tables == old(db.tables)
  {
    if id !in db.tables.windows {
      return NotFound;
    }
    var w := db.tables.windows[id];
    if !(w.blockedSiteId in db.tables.sites && db.tables.sites[w.blockedSiteId].userId == userId) {
      return Unauthorized;
    }
    db.tables := RemoveWindow(db.tables, id);
    r := Success;
  }

  /**
   * Round trip: a window the owner adds and then deletes leaves the database
   * exactly as it was.
   */
  method CreateThenDelete(db: Database, userId: Id, body: WindowBody, freshId: Id, now: Instant)
    requires db.Valid() && freshId !in db.tables.windows
    requires Truthy(body.blockedSiteId) && Truthy(body.startTime) && Truthy(body.endTime)
    requires body.blockedSiteId.value in db.tables.sites && db.tables.sites[body.blockedSiteId.value].userId == userId
    modifies db
    ensures db.Valid() && db.tables == old(db.tables)
  {
    var created := CreateWindow(db, userId, body, freshId, now);
    var deleted := DeleteWindow(db, userId, freshId);
    RemoveAfterInsert(old(db.tables), NewWindow(freshId, body, now));
  }

  /** A Sunday window (day 0) is stored as day 0, not as "every day". */
  lemma SundayIsKept(id: Id, siteId: Id, start: string, end: string, now: Instant)
    requires siteId != "" && start != "" && end != ""
    ensures NewWindow(id, WindowBody(Some(siteId), Some(0), Some(start), Some(end)), now).dayOfWeek == Some(0)
  {
  }
}
