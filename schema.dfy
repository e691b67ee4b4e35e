/**
 * The server's tables (backend/src/db/schema.ts) as records, the whole
 * database as a value, the referential rules the foreign keys enforce
 * (cascade and set-null deletes), and the mutable database handle the route
 * handlers read and write.
 */
module Schema {
  import opened Common

  /** Primary keys are UUID strings generated by the database. */
  type Id = string

  /** Instants are Unix milliseconds. */
  type Instant = int

  datatype User = User(id: Id, email: string, passwordHash: string, createdAt: Instant)

  datatype Category = Category(id: Id, userId: Id, name: string, color: Option<string>, createdAt: Instant)

  datatype BlockedSite = BlockedSite(
    id: Id,
    userId: Id,
    categoryId: Option<Id>,
    url: string,
    isActive: bool,
    unlockRequestedAt: Option<Instant>,
    accessAttempts: int,
    createdAt: Instant)

  /**
   * dayOfWeek is documented as 0-6 (Sunday-Saturday) or null for every day;
   * the column is a plain integer, so nothing enforces the range.
   */
  datatype TimeWindow = TimeWindow(
    id: Id,
    blockedSiteId: Id,
    dayOfWeek: Option<int>,
    startTime: string,
    endTime: string,
    createdAt: Instant)

  /** A quote with no owner is a system quote. */
  datatype Quote = Quote(id: Id, userId: Option<Id>, text: string, author: string, isActive: bool, isSystem: bool)

  /** The documented range of dayOfWeek (Date.getDay numbering). */
  predicate IsDayOfWeek(d: int) { 0 <= d <= 6 }

  /** A new site row as the column defaults make it. */
  function NewSite(id: Id, userId: Id, categoryId: Option<Id>, url: string, isActive: bool, now: Instant): (s: BlockedSite)
    ensures s.accessAttempts == 0 && s.unlockRequestedAt == None && s.createdAt == now
  {
    BlockedSite(id, userId, categoryId, url, isActive, None, 0, now)
  }

  /** Every table, keyed by primary key. */
  datatype Tables = Tables(
    users: map<Id, User>,
    categories: map<Id, Category>,
    sites: map<Id, BlockedSite>,
    windows: map<Id, TimeWindow>,
    quotes: map<Id, Quote>)

  predicate KeysMatch(t: Tables)
  {
    && (forall k :: k in t.users ==> t.users[k].id == k)
    && (forall k :: k in t.categories ==> t.categories[k].id == k)
    && (forall k :: k in t.sites ==> t.sites[k].id == k)
    && (forall k :: k in t.windows ==> t.windows[k].id == k)
    && (forall k :: k in t.quotes ==> t.quotes[k].id == k)
  }

  /** The foreign keys: every reference points at an existing row. */
  predicate ReferencesResolve(t: Tables)
  {
    && (forall k :: k in t.categories ==> t.categories[k].userId in t.users)
    && (forall k :: k in t.sites ==> t.sites[k].userId in t.users)
    && (forall k :: k in t.sites && t.sites[k].categoryId.Some? ==> t.sites[k].categoryId.value in t.categories)
    && (forall k :: k in t.windows ==> t.windows[k].blockedSiteId in t.sites)
    && (forall k :: k in t.quotes && t.quotes[k].userId.Some? ==> t.quotes[k].userId.value in t.users)
  }

  predicate Wellformed(t: Tables)
  {
    KeysMatch(t) && ReferencesResolve(t)
  }

  /** Deleting a site: `time_windows.blocked_site_id` is ON DELETE CASCADE. */
  function DeleteSite(t: Tables, id: Id): (r: Tables)
    ensures Wellformed(t) ==> Wellformed(r)
    ensures r.sites.Keys == t.sites.Keys - {id}
    ensures forall k :: k in r.sites ==> r.sites[k] == t.sites[k]
    ensures forall w :: w in r.windows <==> w in t.windows && t.windows[w].blockedSiteId != id
    ensures forall w :: w in r.windows ==> r.windows[w] == t.windows[w]
    ensures r.users == t.users && r.categories == t.categories && r.quotes == t.quotes
  {
    t.(sites := t.sites - {id},
       windows := map w | w in t.windows && t.windows[w].blockedSiteId != id :: t.windows[w])
  }

  /** Deleting a category: `blocked_sites.category_id` is ON DELETE SET NULL. */
  function DeleteCategory(t: Tables, id: Id): (r: Tables)
    ensures Wellformed(t) ==> Wellformed(r)
    ensures r.categories.Keys == t.categories.Keys - {id}
    ensures r.sites.Keys == t.sites.Keys
    ensures forall k :: k in r.sites ==>
      r.sites[k] == if t.sites[k].categoryId == Some(id) then t.sites[k].(categoryId := None) else t.sites[k]
    ensures r.users == t.users && r.windows == t.windows && r.quotes == t.quotes
  {
    t.(categories := t.categories - {id},
       sites := map k | k in t.sites ::
         if t.sites[k].categoryId == Some(id) then t.sites[k].(categoryId := None) else t.sites[k])
  }

  /** Sites keep their category only while it exists; otherwise it becomes null. */
  function DetachCategories(sites: map<Id, BlockedSite>, categories: map<Id, Category>): (r: map<Id, BlockedSite>)
    ensures r.Keys == sites.Keys
    ensures forall k :: k in r ==> r[k].(categoryId := sites[k].categoryId) == sites[k]
    ensures forall k :: k in r && r[k].categoryId.Some? ==> r[k].categoryId.value in categories
    ensures forall k :: k in r && sites[k].categoryId.Some? && sites[k].categoryId.value in categories ==>
      r[k] == sites[k]
  {
    map k | k in sites ::
      if sites[k].categoryId.Some? && sites[k].categoryId.value !in categories
      then sites[k].(categoryId := None) else sites[k]
  }

  /**
   * Deleting a user: categories, sites and quotes reference users ON DELETE
   * CASCADE, and the windows of the deleted sites go with them. A surviving
   * site of another user that pointed at one of the deleted categories (the
   * routes do not check who owns a category) has its category set to null.
   */
  function DeleteUser(t: Tables, id: Id): (r: Tables)
    ensures r.users.Keys == t.users.Keys - {id}
    ensures forall k :: k in r.categories <==> k in t.categories && t.categories[k].userId != id
    ensures forall k :: k in r.sites <==> k in t.sites && t.sites[k].userId != id
    ensures forall k :: k in r.sites ==> r.sites[k].(categoryId := t.sites[k].categoryId) == t.sites[k]
    ensures forall k :: k in r.sites ==>
      r.sites[k].categoryId ==
        if t.sites[k].categoryId.Some? && t.sites[k].categoryId.value !in r.categories then None
        else t.sites[k].categoryId
    ensures forall k :: k in r.quotes <==> k in t.quotes && t.quotes[k].userId != Some(id)
    ensures forall w :: w in r.windows <==> w in t.windows && t.windows[w].blockedSiteId in r.sites
    ensures forall k :: k in r.users ==> r.users[k] == t.users[k]
    ensures forall k :: k in r.categories ==> r.categories[k] == t.categories[k]
    ensures forall k :: k in r.quotes ==> r.quotes[k] == t.quotes[k]
    ensures forall w :: w in r.windows ==> r.windows[w] == t.windows[w]
  {
    var categories := map k | k in t.categories && t.categories[k].userId != id :: t.categories[k];
    var kept := map k | k in t.sites && t.sites[k].userId != id :: t.sites[k];
    var sites := DetachCategories(kept, categories);
    Tables(
      t.users - {id},
      categories,
      sites,
      map w | w in t.windows && t.windows[w].blockedSiteId in sites :: t.windows[w],
      map k | k in t.quotes && t.quotes[k].userId != Some(id) :: t.quotes[k])
  }

  lemma DeleteUserKeysMatch(t: Tables, id: Id)
    requires Wellformed(t)
    ensures KeysMatch(DeleteUser(t, id))
  {
    var r := DeleteUser(t, id);
    assert forall k :: k in r.sites ==> r.sites[k].id == t.sites[k].id;
  }

  lemma DeleteUserOwnersResolve(t: Tables, id: Id)
    requires Wellformed(t)
    ensures var r := DeleteUser(t, id);
      && (forall k :: k in r.categories ==> r.categories[k].userId in r.users)
      && (forall k :: k in r.sites ==> r.sites[k].userId in r.users)
      && (forall k :: k in r.quotes && r.quotes[k].userId.Some? ==> r.quotes[k].userId.value in r.users)
  {
    var r := DeleteUser(t, id);
    assert forall k :: k in r.sites ==> r.sites[k].userId == t.sites[k].userId;
  }

  lemma DeleteUserContainersResolve(t: Tables, id: Id)
    requires Wellformed(t)
    ensures var r := DeleteUser(t, id);
      && (forall k :: k in r.sites && r.sites[k].categoryId.Some? ==> r.sites[k].categoryId.value in r.categories)
      && (forall k :: k in r.windows ==> r.windows[k].blockedSiteId in r.sites)
  {
  }

  /** Deleting a user keeps every foreign key resolved. */
  lemma DeleteUserKeepsWellformed(t: Tables, id: Id)
    requires Wellformed(t)
    ensures Wellformed(DeleteUser(t, id))
  {
    DeleteUserKeysMatch(t, id);
    DeleteUserOwnersResolve(t, id);
    DeleteUserContainersResolve(t, id);
  }

  /** The database connection the route handlers share. */
  class Database {
    var tables: Tables

    ghost predicate Valid()
      reads this
    {
      Wellformed(tables)
    }

    constructor (initial: Tables)
      requires Wellformed(initial)
      ensures Valid() && tables == initial
    {
      tables := initial;
    }
  }
}
