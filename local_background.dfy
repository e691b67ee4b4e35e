/**
 * The stand-alone extension's background worker (extension-local/background.js):
 * a site list kept in Chrome storage and changed in place, a configurable
 * unlock delay in hours, daily statistics, and the blocking decision. Here a
 * site's windows are BLOCKED periods, and a site without windows is blocked
 * always.
 */
module LocalExtension {
  import opened Common
  import opened Text
  import opened UrlClean

  /** A window; `days` lists weekdays in getDay numbering, absent or empty meaning every day. */
  datatype LocalWindow = LocalWindow(id: string, days: Option<seq<int>>, startTime: string, endTime: string)

  /** A stored site; `unlockRequestedAt` is the request time in ms (stored as its ISO text). */
  datatype LocalSite = LocalSite(
    id: string,
    url: string,
    isActive: bool,
    createdAt: int,
    unlockRequestedAt: Option<int>,
    timeWindows: Option<seq<LocalWindow>>)

  /** The stored settings; only the unlock delay (hours) is read. A missing delay makes the arithmetic NaN. */
  datatype Settings = Settings(unlockDelay: Option<int>)

  datatype LocalStats = LocalStats(blockedToday: int, streak: int, totalBlocked: int, lastDate: string)

  /** The input of `addSite`: a url and optional windows. */
  datatype SiteInput = SiteInput(url: string, timeWindows: Option<seq<LocalWindow>>)

  /** The input of `addTimeWindow`; an own `id` wins over the generated one. */
  datatype WindowInput = WindowInput(id: Option<string>, days: Option<seq<int>>, startTime: string, endTime: string)

  /** The fields `updateSite` copies over the stored site with `Object.assign`; None leaves a field alone. */
  datatype SitePatch = SitePatch(
    id: Option<string>,
    url: Option<string>,
    isActive: Option<bool>,
    createdAt: Option<int>,
    unlockRequestedAt: Option<Option<int>>,
    timeWindows: Option<Option<seq<LocalWindow>>>)

  /** What an operation resolves with. */
  datatype Outcome =
    | Done(site: Option<LocalSite>)      // { success: true, site? }
    | WindowAdded(window: LocalWindow)   // { success: true, timeWindow }
    | AlreadyBlocked                     // 'Site already blocked'
    | SiteNotFound                       // 'Site not found'
    | NeedsUnlock                        // 'Request unlock first', needsUnlock: true
    | NotReady(remaining: int)           // 'Unlock not ready', remaining

  const DEFAULT_UNLOCK_DELAY_HOURS := 6
  const HOUR_MS := 60 * 60 * 1000

  /** The settings stored at first run. */
  const DefaultSettings := Settings(Some(DEFAULT_UNLOCK_DELAY_HOURS))

  // ----- lookups on the site list -----

  /** `sites.findIndex(s => s.id === id)`, None for -1. */
  function FindSite(sites: seq<LocalSite>, id: string): (r: Option<nat>)
    ensures r.Some? ==> r.value < |sites| && sites[r.value].id == id && forall k :: 0 <= k < r.value ==> sites[k].id != id
    ensures r.None? ==> forall k :: 0 <= k < |sites| ==> sites[k].id != id
  {
    if |sites| == 0 then None
    else if sites[0].id == id then Some(0)
    else match FindSite(sites[1..], id)
      case None => None
      case Some(k) => Some(k + 1)
  }

  /** `sites.splice(i, 1)`: drop index i and keep the order of the rest. */
  function RemoveAt(sites: seq<LocalSite>, i: nat): (r: seq<LocalSite>)
    requires i < |sites|
    ensures |r| == |sites| - 1
    ensures forall k :: 0 <= k < i ==> r[k] == sites[k]
    ensures forall k :: i <= k < |r| ==> r[k] == sites[k + 1]
    ensures multiset(r) + multiset{sites[i]} == multiset(sites)
  {
    assert sites == sites[..i] + [sites[i]] + sites[i + 1..];
    sites[..i] + sites[i + 1..]
  }

  // ----- the unlock gate -----

  /** The delay in ms; None when the stored settings lack a delay (NaN in JavaScript). */
  function DelayMs(settings: Option<Settings>): (r: Option<int>)
    ensures settings.None? ==> r == Some(DEFAULT_UNLOCK_DELAY_HOURS * HOUR_MS)
    ensures settings.Some? ==> (r.None? <==> settings.value.unlockDelay.None?)
    ensures settings.Some? && settings.value.unlockDelay.Some? ==>
      r == Some(settings.value.unlockDelay.value * HOUR_MS)
  {
    match settings
    case None => Some(DEFAULT_UNLOCK_DELAY_HOURS * HOUR_MS)
    case Some(s) => if s.unlockDelay.Some? then Some(s.unlockDelay.value * HOUR_MS) else None
  }

  /**
   * The check toggleSite and removeSite make before changing an ACTIVE site:
   * None lets the change through. A NaN remainder fails `remaining > 0` and
   * so lets it through too.
   */
  function Gate(site: LocalSite, settings: Option<Settings>, now: int): (r: Option<Outcome>)
    ensures !site.isActive ==> r.None?
    ensures r.Some? ==> r.value.NeedsUnlock? || (r.value.NotReady? && r.value.remaining > 0)
  {
    if !site.isActive then None
    else if site.unlockRequestedAt.None? then Some(NeedsUnlock)
    else match DelayMs(settings)
      case None => None
      case Some(delay) =>
        var remaining := site.unlockRequestedAt.value + delay - now;
        if remaining > 0 then Some(NotReady(remaining)) else None
  }

  /** For an active site with a configured delay the gate opens exactly when the delay has elapsed since the request. */
  lemma GateOpensAfterDelay(site: LocalSite, settings: Option<Settings>, now: int)
    requires site.isActive && DelayMs(settings).Some?
    ensures site.unlockRequestedAt.None? ==> Gate(site, settings, now) == Some(NeedsUnlock)
    ensures site.unlockRequestedAt.Some? ==>
      (Gate(site, settings, now).None? <==> now >= site.unlockRequestedAt.value + DelayMs(settings).value)
  {
  }

  /** A stored settings record without `unlockDelay` opens the gate as soon as an unlock is requested. */
  lemma MissingDelayOpensGate(site: LocalSite, now: int)
    requires site.unlockRequestedAt.Some?
    ensures Gate(site, Some(Settings(None)), now).None?
  {
  }

  // ----- the schedule and the blocking decision -----

  /** The window applies today: no day list, an empty one, or one containing today. */
  predicate AppliesOn(w: LocalWindow, day: int)
  {
    w.days.None? || |w.days.value| == 0 || day in w.days.value
  }

  /** One window blocks now: it applies today and start <= now <= end as strings. */
  predicate WindowBlocks(w: LocalWindow, day: int, currentTime: string)
  {
    AppliesOn(w, day) && LexLe(w.startTime, currentTime) && LexLe(currentTime, w.endTime)
  }

  /** The meaning of `shouldBlockNow`: no windows, or some window blocks now. */
  predicate BlockNow(timeWindows: Option<seq<LocalWindow>>, day: int, currentTime: string)
  {
    timeWindows.None? || |timeWindows.value| == 0 ||
    exists i :: 0 <= i < |timeWindows.value| && WindowBlocks(timeWindows.value[i], day, currentTime)
  }

  /** `shouldBlockNow(timeWindows)` with the weekday and "HH:MM" clock reading as parameters. */
  method ShouldBlockNow(timeWindows: Option<seq<LocalWindow>>, day: int, currentTime: string) returns (r: bool)
    ensures r == BlockNow(timeWindows, day, currentTime)
  {
    if timeWindows.None? || |timeWindows.value| == 0 {
      return true;
    }
    var ws := timeWindows.value;
    var i := 0;
    while i < |ws|
      invariant 0 <= i <= |ws|
      invariant forall k :: 0 <= k < i ==> !WindowBlocks(ws[k], day, currentTime)
    {
      var days := ws[i].days;
      if days.Some? && |days.value| > 0 {
        if day !in days.value {
          i := i + 1;
          continue;
        }
      }
      if LexLe(ws[i].startTime, currentTime) && LexLe(currentTime, ws[i].endTime) {
        return true;
      }
      i := i + 1;
    }
    return false;
  }

  /** The hostname test of `isUrlBlocked`, all three disjuncts. */
  predicate HostMatches(hostname: string, url: string)
  {
    Includes(hostname, url) || hostname == url || hostname == "www." + url
  }

  /** The two equality tests add nothing: a match is exactly an occurrence of the url in the hostname. */
  lemma HostMatchesIsIncludes(hostname: string, url: string)
    ensures HostMatches(hostname, url) <==> Includes(hostname, url)
  {
    if hostname == url {
      IncludesSuffix("", url);
      assert "" + url == url;
    } else if hostname == "www." + url {
      IncludesSuffix("www.", url);
    }
  }

  /** The meaning of `isUrlBlocked`: some ACTIVE site matches the lower-cased hostname and blocks now. */
  predicate BlockedBy(sites: seq<LocalSite>, hostname: Option<string>, day: int, currentTime: string)
  {
    hostname.Some? &&
    exists i :: 0 <= i < |sites| && sites[i].isActive &&
      HostMatches(ToLower(hostname.value), sites[i].url) && BlockNow(sites[i].timeWindows, day, currentTime)
  }

  /** A paused site never blocks, whatever its url and windows. */
  lemma PausedSiteNeverBlocks(sites: seq<LocalSite>, i: nat, hostname: Option<string>, day: int, currentTime: string)
    requires i < |sites| && !sites[i].isActive
    ensures BlockedBy(sites, hostname, day, currentTime) ==
      BlockedBy(RemoveAt(sites, i), hostname, day, currentTime)
  {
    var r := RemoveAt(sites, i);
    if BlockedBy(sites, hostname, day, currentTime) {
      var j :| 0 <= j < |sites| && sites[j].isActive &&
        HostMatches(ToLower(hostname.value), sites[j].url) && BlockNow(sites[j].timeWindows, day, currentTime);
      if j < i { assert r[j] == sites[j]; } else { assert r[j - 1] == sites[j]; }
    }
    if BlockedBy(r, hostname, day, currentTime) {
      var j :| 0 <= j < |r| && r[j].isActive &&
        HostMatches(ToLower(hostname.value), r[j].url) && BlockNow(r[j].timeWindows, day, currentTime);
      if j < i { assert r[j] == sites[j]; } else { assert r[j] == sites[j + 1]; }
    }
  }

  // ----- the site records the operations write -----

  /** The site `addSite` appends: normalised url, active, no request, the given windows or none. */
  function NewLocalSite(input: SiteInput, now: nat): (s: LocalSite)
    ensures s.id == NatToString(now) && s.url == CleanLowerHost(input.url) && '/' !in s.url
    ensures s.isActive && s.unlockRequestedAt.None? && s.createdAt == now
    ensures s.timeWindows == Some(input.timeWindows.GetOr([]))
  {
    LocalSite(NatToString(now), CleanLowerHost(input.url), true, now, None, Some(input.timeWindows.GetOr([])))
  }

  /** The duplicate test compares lower-cased urls: the RAW input against the stored, normalised ones. */
  predicate AlreadyListed(sites: seq<LocalSite>, url: string)
  {
    exists i :: 0 <= i < |sites| && ToLower(sites[i].url) == ToLower(url)
  }

  /** `Object.assign(site, updates)`. */
  function Patch(site: LocalSite, p: SitePatch): (r: LocalSite)
    ensures p.id.Some? ==> r.id == p.id.value
    ensures p.id.None? ==> r.id == site.id
    ensures p.url.Some? ==> r.url == p.url.value
    ensures p.url.None? ==> r.url == site.url
    ensures p.isActive.Some? ==> r.isActive == p.isActive.value
    ensures p.isActive.None? ==> r.isActive == site.isActive
    ensures p.unlockRequestedAt.Some? ==> r.unlockRequestedAt == p.unlockRequestedAt.value
    ensures p.unlockRequestedAt.None? ==> r.unlockRequestedAt == site.unlockRequestedAt
    ensures p.createdAt.Some? ==> r.createdAt == p.createdAt.value
    ensures p.createdAt.None? ==> r.createdAt == site.createdAt
    ensures p.timeWindows.Some? ==> r.timeWindows == p.timeWindows.value
    ensures p.timeWindows.None? ==> r.timeWindows == site.timeWindows
  {
    LocalSite(
      p.id.GetOr(site.id), p.url.GetOr(site.url), p.isActive.GetOr(site.isActive),
      p.createdAt.GetOr(site.createdAt), p.unlockRequestedAt.GetOr(site.unlockRequestedAt),
      p.timeWindows.GetOr(site.timeWindows))
  }

  /** `{ id: Date.now().toString(), ...timeWindow }`. */
  function NewLocalWindow(input: WindowInput, now: nat): (w: LocalWindow)
    ensures w.id == input.id.GetOr(NatToString(now))
    ensures w.days == input.days && w.startTime == input.startTime && w.endTime == input.endTime
  {
    LocalWindow(input.id.GetOr(NatToString(now)), input.days, input.startTime, input.endTime)
  }

  /** The windows left by `removeTimeWindow`: all but those with the id, in order. */
  function WithoutWindow(ws: Option<seq<LocalWindow>>, windowId: string): (r: seq<LocalWindow>)
    ensures forall w :: w in r <==> w in ws.GetOr([]) && w.id != windowId
    ensures |r| <= |ws.GetOr([])|
  {
    Filter(ws.GetOr([]), (w: LocalWindow) => w.id != windowId)
  }

  /** A fresh statistics record dated `today`. */
  function FreshStats(today: string): (s: LocalStats)
    ensures s.blockedToday == 0 && s.streak == 0 && s.totalBlocked == 0 && s.lastDate == today
  {
    LocalStats(0, 0, 0, today)
  }

  /**
   * The keys of `chrome.storage.sync` the worker uses (`sites`, `settings`,
   * `stats`) and its in-memory copy of the list, `blockedSites`.
   */
  class LocalBackground {
    var sites: Option<seq<LocalSite>>
    var blockedSites: seq<LocalSite>
    var settings: Option<Settings>
    var stats: Option<LocalStats>

    /** A first start: nothing stored, nothing loaded. */
    constructor ()
      ensures sites.None? && blockedSites == [] && settings.None? && stats.None?
    {
      sites := None;
      blockedSites := [];
      settings := None;
      stats := None;
    }

    /** The stored list, empty when the key is absent. */
    function List(): seq<LocalSite>
      reads this
    {
      sites.GetOr([])
    }

    /** Store `list` and make it the in-memory list. */
    method Store(list: seq<LocalSite>)
      modifies this
      ensures sites == Some(list) && blockedSites == list
      ensures settings == old(settings) && stats == old(stats)
    {
      sites := Some(list);
      blockedSites := list;
    }

    /** `initializeData()`: write the missing keys with their defaults, then load the list. */
    method InitializeData(today: string)
      modifies this
      ensures sites == Some(old(sites).GetOr([])) && blockedSites == List()
      ensures stats == Some(old(stats).GetOr(FreshStats(today)))
      ensures settings == Some(old(settings).GetOr(DefaultSettings))
    {
      if sites.None? {
        sites := Some([]);
      }
      if stats.None? {
        stats := Some(FreshStats(today));
      }
      if settings.None? {
        settings := Some(DefaultSettings);
      }
      LoadSites();
    }

    /** `loadSites()`: the in-memory list becomes the stored one. */
    method LoadSites()
      modifies this
      ensures blockedSites == List()
      ensures sites == old(sites) && settings == old(settings) && stats == old(stats)
    {
      blockedSites := sites.GetOr([]);
    }

    /** `addSite(site)`: refuse a (case-insensitive) duplicate, else append the normalised site. */
    method AddSite(input: SiteInput, now: nat) returns (r: Outcome)
      modifies this
      ensures AlreadyListed(old(List()), input.url) ==>
        r == AlreadyBlocked && sites == old(sites) && blockedSites == old(blockedSites)
      ensures !AlreadyListed(old(List()), input.url) ==>
        r == Done(Some(NewLocalSite(input, now))) && sites == Some(old(List()) + [NewLocalSite(input, now)]) &&
        blockedSites == List()
      ensures settings == old(settings) && stats == old(stats)
    {
      var list := sites.GetOr([]);
      var i := 0;
      while i < |list|
        invariant 0 <= i <= |list|
        invariant forall k :: 0 <= k < i ==> ToLower(list[k].url) != ToLower(input.url)
      {
        if ToLower(list[i].url) == ToLower(input.url) {
          return AlreadyBlocked;
        }
        i := i + 1;
      }
      var site := NewLocalSite(input, now);
      Store(list + [site]);
      r := Done(Some(site));
    }

    /** `requestUnlock(id)`: (re)start the cooldown at `now`, overwriting any earlier request. */
    method RequestUnlock(id: string, now: int) returns (r: Outcome)
      modifies this
      ensures match FindSite(old(List()), id)
        case None => r == SiteNotFound && sites == old(sites) && blockedSites == old(blockedSites)
        case Some(i) =>
          var site := old(List())[i].(unlockRequestedAt := Some(now));
          r == Done(Some(site)) && sites == Some(old(List())[i := site]) && blockedSites == List()
      ensures settings == old(settings) && stats == old(stats)
    {
      var list := sites.GetOr([]);
      var found := FindSite(list, id);
      if found.None? {
        return SiteNotFound;
      }
      var site := list[found.value].(unlockRequestedAt := Some(now));
      Store(list[found.value := site]);
      r := Done(Some(site));
    }

    /** `cancelUnlock(id)`: forget the request. */
    method CancelUnlock(id: string) returns (r: Outcome)
      modifies this
      ensures match FindSite(old(List()), id)
        case None => r == SiteNotFound && sites == old(sites) && blockedSites == old(blockedSites)
        case Some(i) =>
          var site := old(List())[i].(unlockRequestedAt := None);
          r == Done(Some(site)) && sites == Some(old(List())[i := site]) && blockedSites == List()
      ensures settings == old(settings) && stats == old(stats)
    {
      var list := sites.GetOr([]);
      var found := FindSite(list, id);
      if found.None? {
        return SiteNotFound;
      }
      var site := list[found.value].(unlockRequestedAt := None);
      Store(list[found.value := site]);
      r := Done(Some(site));
    }

    /**
     * `toggleSite(id)`: pausing an active site passes the gate first;
     * resuming a paused one is unconditional. Either way the request is cleared.
     */
    method ToggleSite(id: string, now: int) returns (r: Outcome)
      modifies this
      ensures match FindSite(old(List()), id)
        case None => r == SiteNotFound && sites == old(sites) && blockedSites == old(blockedSites)
        case Some(i) =>
          match Gate(old(List())[i], settings, now)
          case Some(refusal) => r == refusal && sites == old(sites) && blockedSites == old(blockedSites)
          case None =>
            var site := old(List())[i].(isActive := !old(List())[i].isActive, unlockRequestedAt := None);
            r == Done(Some(site)) && sites == Some(old(List())[i := site]) && blockedSites == List()
      ensures settings == old(settings) && stats == old(stats)
    {
      var list := sites.GetOr([]);
      var found := FindSite(list, id);
      if found.None? {
        return SiteNotFound;
      }
      var site := list[found.value];
      if site.isActive {
        if site.unlockRequestedAt.None? {
          return NeedsUnlock;
        }
        var delayMs := DelayMs(settings);
        if delayMs.Some? {
          var remaining := site.unlockRequestedAt.value + delayMs.value - now;
          if remaining > 0 {
            return NotReady(remaining);
          }
        }
      }
      site := site.(isActive := !site.isActive, unlockRequestedAt := None);
      Store(list[found.value := site]);
      r := Done(Some(site));
    }

    /** `removeSite(id)`: the same gate (only active sites are gated), then splice the site out. */
    method RemoveSite(id: string, now: int) returns (r: Outcome)
      modifies this
      ensures match FindSite(old(List()), id)
        case None => r == SiteNotFound && sites == old(sites) && blockedSites == old(blockedSites)
        case Some(i) =>
          match Gate(old(List())[i], settings, now)
          case Some(refusal) => r == refusal && sites == old(sites) && blockedSites == old(blockedSites)
          case None => r == Done(None) && sites == Some(RemoveAt(old(List()), i)) && blockedSites == List()
      ensures settings == old(settings) && stats == old(stats)
    {
      var list := sites.GetOr([]);
      var found := FindSite(list, id);
      if found.None? {
        return SiteNotFound;
      }
      var site := list[found.value];
      if site.isActive {
        if site.unlockRequestedAt.None? {
          return NeedsUnlock;
        }
        var delayMs := DelayMs(settings);
        if delayMs.Some? {
          var remaining := site.unlockRequestedAt.value + delayMs.value - now;
          if remaining > 0 {
            return NotReady(remaining);
          }
        }
      }
      Store(RemoveAt(list, found.value));
      r := Done(None);
    }

    /** `updateSite(id, updates)`: copy the given fields over the site, with no gate at all. */
    method UpdateSite(id: string, updates: SitePatch) returns (r: Outcome)
      modifies this
      ensures match FindSite(old(List()), id)
        case None => r == SiteNotFound && sites == old(sites) && blockedSites == old(blockedSites)
        case Some(i) =>
          r == Done(Some(Patch(old(List())[i], updates))) &&
          sites == Some(old(List())[i := Patch(old(List())[i], updates)]) && blockedSites == List()
      ensures settings == old(settings) && stats == old(stats)
    {
      var list := sites.GetOr([]);
      var found := FindSite(list, id);
      if found.None? {
        return SiteNotFound;
      }
      var site := Patch(list[found.value], updates);
      Store(list[found.value := site]);
      r := Done(Some(site));
    }

    /** `addTimeWindow(siteId, timeWindow)`: append a window, creating the list when absent. */
    method AddTimeWindow(siteId: string, input: WindowInput, now: nat) returns (r: Outcome)
      modifies this
      ensures match FindSite(old(List()), siteId)
        case None => r == SiteNotFound && sites == old(sites) && blockedSites == old(blockedSites)
        case Some(i) =>
          var w := NewLocalWindow(input, now);
          var site := old(List())[i].(timeWindows := Some(old(List())[i].timeWindows.GetOr([]) + [w]));
          r == WindowAdded(w) && sites == Some(old(List())[i := site]) && blockedSites == List()
      ensures settings == old(settings) && stats == old(stats)
    {
      var list := sites.GetOr([]);
      var found := FindSite(list, siteId);
      if found.None? {
        return SiteNotFound;
      }
      var site := list[found.value];
      var windows := site.timeWindows.GetOr([]);
      var w := NewLocalWindow(input, now);
      site := site.(timeWindows := Some(windows + [w]));
      Store(list[found.value := site]);
      r := WindowAdded(w);
    }

    /** `removeTimeWindow(siteId, windowId)`: keep the other windows, in order. */
    method RemoveTimeWindow(siteId: string, windowId: string) returns (r: Outcome)
      modifies this
      ensures match FindSite(old(List()), siteId)
        case None => r == SiteNotFound && sites == old(sites) && blockedSites == old(blockedSites)
        case Some(i) =>
          var site := old(List())[i].(timeWindows := Some(WithoutWindow(old(List())[i].timeWindows, windowId)));
          r == Done(None) && sites == Some(old(List())[i := site]) && blockedSites == List()
      ensures settings == old(settings) && stats == old(stats)
    {
      var list := sites.GetOr([]);
      var found := FindSite(list, siteId);
      if found.None? {
        return SiteNotFound;
      }
      var site := list[found.value];
      site := site.(timeWindows := Some(WithoutWindow(site.timeWindows, windowId)));
      Store(list[found.value := site]);
      r := Done(None);
    }

    /**
     * `checkAndResetDailyStats()`: on a new date the streak grows when
     * something was blocked and drops to 0 otherwise, the day's counter is
     * zeroed and the date advances. Missing statistics default to today's
     * date, so nothing is written then.
     */
    method CheckAndResetDailyStats(today: string)
      modifies this
      ensures var s := old(stats).GetOr(FreshStats(today));
        if s.lastDate == today then stats == old(stats)
        else stats == Some(LocalStats(0, if s.blockedToday > 0 then s.streak + 1 else 0, s.totalBlocked, today))
      ensures sites == old(sites) && blockedSites == old(blockedSites) && settings == old(settings)
    {
      var s := stats.GetOr(FreshStats(today));
      if s.lastDate != today {
        if s.blockedToday > 0 {
          s := s.(streak := s.streak + 1);
        } else {
          s := s.(streak := 0);
        }
        s := s.(blockedToday := 0, lastDate := today);
        stats := Some(s);
      }
    }

    /** `recordBlockedAttempt()`: one more block today and in total. */
    method RecordBlockedAttempt(today: string)
      modifies this
      ensures var s := old(stats).GetOr(FreshStats(today));
        stats == Some(s.(blockedToday := s.blockedToday + 1, totalBlocked := s.totalBlocked + 1))
      ensures sites == old(sites) && blockedSites == old(blockedSites) && settings == old(settings)
    {
      var s := stats.GetOr(FreshStats(today));
      s := s.(blockedToday := s.blockedToday + 1, totalBlocked := s.totalBlocked + 1);
      stats := Some(s);
    }

    /** `isUrlBlocked(url)` over the in-memory list, with the parsed hostname (None when it does not parse). */
    method IsUrlBlocked(hostname: Option<string>, day: int, currentTime: string) returns (r: bool)
      ensures r == BlockedBy(blockedSites, hostname, day, currentTime)
    {
      if hostname.None? {
        return false;
      }
      var host := ToLower(hostname.value);
      var i := 0;
      while i < |blockedSites|
        invariant 0 <= i <= |blockedSites|
        invariant forall k :: 0 <= k < i ==>
          !(blockedSites[k].isActive && HostMatches(host, blockedSites[k].url) &&
            BlockNow(blockedSites[k].timeWindows, day, currentTime))
      {
        var site := blockedSites[i];
        if !site.isActive {
          i := i + 1;
          continue;
        }
        if Includes(host, site.url) || host == site.url || host == "www." + site.url {
          var block := ShouldBlockNow(site.timeWindows, day, currentTime);
          if block {
            return true;
          }
        }
        i := i + 1;
      }
      return false;
    }
  }

  /**
   * Unlike the server, a second request restarts the cooldown: the stored
   * timestamp is the later call's.
   */
  method RequestTwiceRestarts(b: LocalBackground, id: string, t1: int, t2: int)
    requires FindSite(b.List(), id).Some?
    modifies b
    ensures FindSite(b.List(), id).Some? && b.List()[FindSite(b.List(), id).value].unlockRequestedAt == Some(t2)
  {
    var i := FindSite(b.List(), id).value;
    var first := b.RequestUnlock(id, t1);
    FindSiteKeepsIndex(old(b.List()), id, b.List()[i]);
    var middle := b.List();
    var second := b.RequestUnlock(id, t2);
    FindSiteKeepsIndex(middle, id, b.List()[i]);
  }

  /** Replacing the found site by one with the same id leaves it the one found. */
  lemma FindSiteKeepsIndex(list: seq<LocalSite>, id: string, site: LocalSite)
    requires FindSite(list, id).Some? && site.id == id
    ensures FindSite(list[FindSite(list, id).value := site], id) == FindSite(list, id)
  {
    var i := FindSite(list, id).value;
    var updated := list[i := site];
    assert updated[i].id == id;
    assert forall k :: 0 <= k < i ==> updated[k] == list[k];
  }

  /** An added site is listed, and a second add of the same text is refused. */
  method AddTwiceRefused(b: LocalBackground, input: SiteInput, t1: nat, t2: nat) returns (second: Outcome)
    requires !AlreadyListed(b.List(), input.url)
    requires CleanLowerHost(input.url) == ToLower(input.url)
    modifies b
    ensures second == AlreadyBlocked
  {
    var first := b.AddSite(input, t1);
    var k := |b.List()| - 1;
    assert b.List()[k].url == CleanLowerHost(input.url);
    ToLowerIdempotent(input.url);
    second := b.AddSite(input, t2);
  }

  lemma ToLowerIdempotent(s: string)
    ensures ToLower(ToLower(s)) == ToLower(s)
  {
  }

  /** The duplicate test misses a repeat typed with a scheme: "https://youtube.com" is not "youtube.com". */
  lemma DuplicateTestSeesRawInput()
    ensures !AlreadyListed([LocalSite("1", "youtube.com", true, 0, None, Some([]))], "https://youtube.com")
  {
    var s := LocalSite("1", "youtube.com", true, 0, None, Some([]));
    assert |ToLower(s.url)| != |ToLower("https://youtube.com")|;
  }
}
