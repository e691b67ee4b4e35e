/**
 * The synced browser extension's background worker (extension/background.js):
 * the cached rule list and its url-keyed Map, the login state, the daily
 * statistics kept in Chrome storage, and the blocking decision. Here a rule's
 * windows are ALLOWED periods, and a rule without windows blocks always.
 */
module SyncedExtension {
  import opened Common
  import opened Text
  import opened Clock
  import opened Sync

  // ----- the blockedUrls Map -----

  /** One entry of the `blockedUrls` Map: a rule keyed by its url. */
  datatype Entry = Entry(pattern: string, rule: Rule)

  /** A JavaScript Map is a sequence of entries in insertion order with distinct keys. */
  predicate UniquePatterns(m: seq<Entry>)
  {
    forall i, j :: 0 <= i < j < |m| ==> m[i].pattern != m[j].pattern
  }

  predicate HasPattern(m: seq<Entry>, k: string)
  {
    exists i :: 0 <= i < |m| && m[i].pattern == k
  }

  /** `map.get(k)`. */
  function MapGet(m: seq<Entry>, k: string): (r: Option<Rule>)
    ensures r.Some? <==> HasPattern(m, k)
    ensures r.Some? ==> exists i :: 0 <= i < |m| && m[i] == Entry(k, r.value)
  {
    if |m| == 0 then None
    else if m[0].pattern == k then Some(m[0].rule)
    else
      var r := MapGet(m[1..], k);
      assert forall i :: 1 <= i < |m| ==> m[i] == m[1..][i - 1];
      assert HasPattern(m[1..], k) ==> HasPattern(m, k) by {
        if HasPattern(m[1..], k) {
          var i :| 0 <= i < |m[1..]| && m[1..][i].pattern == k;
          assert m[i + 1].pattern == k;
        }
      }
      r
  }

  /**
   * `map.set(k, v)`: an existing key keeps its place and takes the new
   * value; a new key is appended.
   */
  function MapSet(m: seq<Entry>, k: string, v: Rule): (r: seq<Entry>)
    ensures !HasPattern(m, k) ==> r == m + [Entry(k, v)]
    ensures HasPattern(m, k) ==> |r| == |m| && forall i :: 0 <= i < |m| ==> r[i].pattern == m[i].pattern
    ensures MapGet(r, k) == Some(v)
    ensures forall k' :: k' != k ==> MapGet(r, k') == MapGet(m, k')
  {
    if |m| == 0 then [Entry(k, v)]
    else if m[0].pattern == k then [Entry(k, v)] + m[1..]
    else
      assert HasPattern(m[1..], k) <==> HasPattern(m, k) by {
        if HasPattern(m, k) {
          var i :| 0 <= i < |m| && m[i].pattern == k;
          assert m[1..][i - 1].pattern == k;
        }
      }
      [m[0]] + MapSet(m[1..], k, v)
  }

  /** Setting a key keeps the keys distinct. */
  lemma MapSetUnique(m: seq<Entry>, k: string, v: Rule)
    requires UniquePatterns(m)
    ensures UniquePatterns(MapSet(m, k, v))
  {
    var r := MapSet(m, k, v);
    if !HasPattern(m, k) {
      forall i, j | 0 <= i < j < |r|
        ensures r[i].pattern != r[j].pattern
      {
        if j == |m| {
          assert r[j].pattern == k && r[i] == m[i];
        }
      }
    }
  }

  /** The Map `rules.forEach((rule) => blockedUrls.set(rule.url, rule))` builds from an empty Map. */
  function MapFromRules(rules: seq<Rule>): (m: seq<Entry>)
    ensures UniquePatterns(m)
  {
    if |rules| == 0 then []
    else
      var last := rules[|rules| - 1];
      var m0 := MapFromRules(rules[..|rules| - 1]);
      MapSetUnique(m0, last.url, last);
      MapSet(m0, last.url, last)
  }

  /** The last rule of the list that carries url `u`. */
  function LastRuleFor(rules: seq<Rule>, u: string): Option<Rule>
  {
    if |rules| == 0 then None
    else if rules[|rules| - 1].url == u then Some(rules[|rules| - 1])
    else LastRuleFor(rules[..|rules| - 1], u)
  }

  /** No rule carries `u`, or the result is a rule carrying `u` that no later rule's url repeats. */
  lemma {:induction false} LastRuleForIsLast(rules: seq<Rule>, u: string)
    ensures LastRuleFor(rules, u).None? <==> forall i :: 0 <= i < |rules| ==> rules[i].url != u
    ensures LastRuleFor(rules, u).Some? ==>
      exists j :: 0 <= j < |rules| && rules[j] == LastRuleFor(rules, u).value && rules[j].url == u &&
        forall k :: j < k < |rules| ==> rules[k].url != u
    decreases |rules|
  {
    if |rules| > 0 {
      var n := |rules|;
      var prefix := rules[..n - 1];
      assert forall i :: 0 <= i < n - 1 ==> rules[i] == prefix[i];
      if rules[n - 1].url != u {
        LastRuleForIsLast(prefix, u);
        if LastRuleFor(prefix, u).Some? {
          var j :| 0 <= j < |prefix| && prefix[j] == LastRuleFor(prefix, u).value && prefix[j].url == u &&
            forall k :: j < k < |prefix| ==> prefix[k].url != u;
          assert rules[j] == LastRuleFor(rules, u).value;
        }
      }
    }
  }

  /** The rebuilt Map answers, for every url, with the LAST rule carrying that url. */
  lemma {:induction false} MapFromRulesLookup(rules: seq<Rule>, u: string)
    ensures MapGet(MapFromRules(rules), u) == LastRuleFor(rules, u)
    decreases |rules|
  {
    if |rules| > 0 {
      MapFromRulesLookup(rules[..|rules| - 1], u);
    }
  }

  /** A url that no earlier rule used is appended to the Map; a repeated one keeps its place. */
  lemma MapFromRulesGrows(rules: seq<Rule>, r: Rule)
    ensures var before, after := MapFromRules(rules), MapFromRules(rules + [r]);
      (HasPattern(before, r.url) ==> |after| == |before|) &&
      (!HasPattern(before, r.url) ==> after == before + [Entry(r.url, r)])
  {
    assert (rules + [r])[..|rules|] == rules;
  }

  // ----- the schedule and the blocking decision -----

  /** One window admits the moment: its day is unset or today, and start <= now <= end on the HH:MM prefixes. */
  predicate WindowAllows(w: RuleWindow, day: int, currentTime: string)
  {
    && (w.dayOfWeek.None? || w.dayOfWeek.value == day)
    && LexLe(Slice5(w.startTime), currentTime)
    && LexLe(currentTime, Slice5(w.endTime))
  }

  /** The meaning of `isInAllowedTimeWindow`: some window admits the moment (none exists in an absent list). */
  predicate InAllowedWindow(timeWindows: Option<seq<RuleWindow>>, day: int, currentTime: string)
  {
    timeWindows.Some? && exists i :: 0 <= i < |timeWindows.value| && WindowAllows(timeWindows.value[i], day, currentTime)
  }

  /** `isInAllowedTimeWindow(timeWindows)`; the weekday and "HH:MM" clock reading are parameters. */
  method IsInAllowedTimeWindow(timeWindows: Option<seq<RuleWindow>>, day: int, currentTime: string) returns (r: bool)
    ensures r == InAllowedWindow(timeWindows, day, currentTime)
    ensures timeWindows.None? || timeWindows == Some([]) ==> !r
  {
    if timeWindows.None? || |timeWindows.value| == 0 {
      return false;
    }
    var ws := timeWindows.value;
    var i := 0;
    while i < |ws|
      invariant 0 <= i <= |ws|
      invariant forall k :: 0 <= k < i ==> !WindowAllows(ws[k], day, currentTime)
    {
      var w := ws[i];
      if w.dayOfWeek.Some? && w.dayOfWeek.value != day {
        i := i + 1;
        continue;
      }
      var startTime := Slice5(w.startTime);
      var endTime := Slice5(w.endTime);
      if LexLe(startTime, currentTime) && LexLe(currentTime, endTime) {
        return true;
      }
      i := i + 1;
    }
    return false;
  }

  /** The meaning of `isUrlBlocked`: some pattern occurs in the hostname and its rule is outside every allowed window. */
  predicate BlockedBy(m: seq<Entry>, hostname: Option<string>, day: int, currentTime: string)
  {
    hostname.Some? &&
    exists i :: 0 <= i < |m| && Includes(hostname.value, m[i].pattern) &&
      !InAllowedWindow(Some(m[i].rule.timeWindows), day, currentTime)
  }

  /**
   * On well-formed clock strings the allowed-window test is the numeric
   * one on minutes of the day, inclusive at both ends.
   */
  lemma AllowedByMinutes(ws: seq<RuleWindow>, day: int, currentTime: string)
    requires IsHHMM(currentTime)
    requires forall i :: 0 <= i < |ws| ==> IsHHMM(Slice5(ws[i].startTime)) && IsHHMM(Slice5(ws[i].endTime))
    ensures InAllowedWindow(Some(ws), day, currentTime) <==>
      exists i :: 0 <= i < |ws| && (ws[i].dayOfWeek.None? || ws[i].dayOfWeek.value == day) &&
        MinuteOfDay(Slice5(ws[i].startTime)) <= MinuteOfDay(currentTime) <= MinuteOfDay(Slice5(ws[i].endTime))
  {
    forall i | 0 <= i < |ws|
      ensures WindowAllows(ws[i], day, currentTime) <==>
        (ws[i].dayOfWeek.None? || ws[i].dayOfWeek.value == day) &&
        MinuteOfDay(Slice5(ws[i].startTime)) <= MinuteOfDay(currentTime) <= MinuteOfDay(Slice5(ws[i].endTime))
    {
      LexLeIsTimeOrder(Slice5(ws[i].startTime), currentTime);
      LexLeIsTimeOrder(currentTime, Slice5(ws[i].endTime));
    }
  }

  /** The windows are an unordered set: any rearrangement gives the same answer. */
  lemma AllowedIgnoresOrder(a: seq<RuleWindow>, b: seq<RuleWindow>, day: int, currentTime: string)
    requires multiset(a) == multiset(b)
    ensures InAllowedWindow(Some(a), day, currentTime) == InAllowedWindow(Some(b), day, currentTime)
  {
    if InAllowedWindow(Some(a), day, currentTime) {
      var i :| 0 <= i < |a| && WindowAllows(a[i], day, currentTime);
      assert a[i] in multiset(b);
      var j :| 0 <= j < |b| && b[j] == a[i];
    }
    if InAllowedWindow(Some(b), day, currentTime) {
      var j :| 0 <= j < |b| && WindowAllows(b[j], day, currentTime);
      assert b[j] in multiset(a);
      var i :| 0 <= i < |a| && a[i] == b[j];
    }
  }

  /** A rule without windows blocks every hostname containing its url, on every day at every time. */
  lemma NoWindowsBlocksAlways(m: seq<Entry>, i: nat, hostname: string, day: int, currentTime: string)
    requires i < |m| && m[i].rule.timeWindows == [] && Includes(hostname, m[i].pattern)
    ensures BlockedBy(m, Some(hostname), day, currentTime)
  {
  }

  /** One window read as minutes of the day. */
  lemma WindowAllowsByMinutes(w: RuleWindow, day: int, currentTime: string)
    requires IsHHMM(currentTime) && IsHHMM(Slice5(w.startTime)) && IsHHMM(Slice5(w.endTime))
    ensures WindowAllows(w, day, currentTime) <==>
      (w.dayOfWeek.None? || w.dayOfWeek.value == day) &&
      MinuteOfDay(Slice5(w.startTime)) <= MinuteOfDay(currentTime) <= MinuteOfDay(Slice5(w.endTime))
  {
    LexLeIsTimeOrder(Slice5(w.startTime), currentTime);
    LexLeIsTimeOrder(currentTime, Slice5(w.endTime));
  }

  /** The seeded daily windows 14:00-14:30 and 18:00-18:30 admit 14:30: the end is inclusive. */
  lemma SeededDailyAdmitsEnd()
    ensures InAllowedWindow(Some(SeededDaily), 3, "14:30")
  {
    var w1 := SeededDaily[0];
    Slice5OfHHMMSS("14:00", ":00");
    Slice5OfHHMMSS("14:30", ":00");
    WindowAllowsByMinutes(w1, 3, "14:30");
  }

  /** ... and do not admit 15:00, between the two. */
  lemma SeededDailyRefusesGap()
    ensures !InAllowedWindow(Some(SeededDaily), 3, "15:00")
  {
    var w1, w2 := SeededDaily[0], SeededDaily[1];
    Slice5OfHHMMSS("14:00", ":00");
    Slice5OfHHMMSS("14:30", ":00");
    Slice5OfHHMMSS("18:00", ":00");
    Slice5OfHHMMSS("18:30", ":00");
    WindowAllowsByMinutes(w1, 3, "15:00");
    WindowAllowsByMinutes(w2, 3, "15:00");
  }

  /** The two daily windows the seed script gives a site. */
  const SeededDaily := [RuleWindow("w1", None, "14:00:00", "14:30:00"), RuleWindow("w2", None, "18:00:00", "18:30:00")]

  /** The seeded day-5 window 19:00-21:00 admits Friday (getDay 5) at 20:00 and not Saturday at 20:00. */
  lemma SeededFridayWindow()
    ensures var friday := [RuleWindow("w3", Some(5), "19:00:00", "21:00:00")];
      InAllowedWindow(Some(friday), 5, "20:00") && !InAllowedWindow(Some(friday), 6, "20:00")
  {
    var w3 := RuleWindow("w3", Some(5), "19:00:00", "21:00:00");
    Slice5OfHHMMSS("19:00", ":00");
    Slice5OfHHMMSS("21:00", ":00");
    WindowAllowsByMinutes(w3, 5, "20:00");
    assert [w3][0] == w3;
  }

  // ----- the worker's state -----

  datatype Stats = Stats(blockedToday: int, streak: int, totalBlocked: int)

  /** The statistics record the worker writes when none is stored. */
  const FreshStats := Stats(0, 0, 0)

  /** What `fetch(API_BASE/sync)` produced: a body whose `rules` may be missing, a non-OK status, or a thrown error. */
  datatype SyncFetch = Fetched(rules: Option<seq<Rule>>) | HttpError(status: int) | NetworkError

  /**
   * The module-level variables of the worker together with the keys it
   * keeps in `chrome.storage.sync` (the cached rules and the statistics).
   */
  class Background {
    var token: Option<string>
    var userId: Option<string>
    var rules: seq<Rule>
    var blockedUrls: seq<Entry>
    var cachedRules: Option<seq<Rule>>
    var stats: Option<Stats>
    var lastStatsDate: Option<string>

    /** The Map always mirrors the rule list. */
    ghost predicate Valid()
      reads this
    {
      blockedUrls == MapFromRules(rules)
    }

    /** A fresh worker: logged out, no rules, nothing stored. */
    constructor ()
      ensures Valid()
      ensures token.None? && userId.None? && rules == [] && blockedUrls == []
      ensures cachedRules.None? && stats.None? && lastStatsDate.None?
    {
      token := None;
      userId := None;
      rules := [];
      blockedUrls := [];
      cachedRules := None;
      stats := None;
      lastStatsDate := None;
    }

    /** Replace the rules and rebuild the Map from an empty one. */
    method Rebuild(newRules: seq<Rule>)
      modifies this
      ensures Valid() && rules == newRules
      ensures token == old(token) && userId == old(userId) && cachedRules == old(cachedRules)
      ensures stats == old(stats) && lastStatsDate == old(lastStatsDate)
    {
      rules := newRules;
      blockedUrls := [];
      var i := 0;
      while i < |newRules|
        invariant 0 <= i <= |newRules|
        invariant rules == newRules && blockedUrls == MapFromRules(newRules[..i])
        invariant token == old(token) && userId == old(userId) && cachedRules == old(cachedRules)
        invariant stats == old(stats) && lastStatsDate == old(lastStatsDate)
      {
        assert newRules[..i + 1][..i] == newRules[..i];
        blockedUrls := MapSet(blockedUrls, newRules[i].url, newRules[i]);
        i := i + 1;
      }
      assert newRules[..i] == newRules;
    }

    /** The `setToken` message: remember the login (the sync it then starts is a separate call). */
    method SetToken(newToken: Option<string>, newUserId: Option<string>)
      requires Valid()
      modifies this
      ensures Valid() && token == newToken && userId == newUserId
      ensures rules == old(rules) && blockedUrls == old(blockedUrls) && cachedRules == old(cachedRules)
      ensures stats == old(stats) && lastStatsDate == old(lastStatsDate)
    {
      token := newToken;
      userId := newUserId;
    }

    /** The `logout` message: forget the login, the rules, the Map and the cached copy. */
    method Logout()
      requires Valid()
      modifies this
      ensures Valid()
      ensures token.None? && userId.None? && rules == [] && blockedUrls == [] && cachedRules.None?
      ensures stats == old(stats) && lastStatsDate == old(lastStatsDate)
    {
      token := None;
      userId := None;
      rules := [];
      blockedUrls := [];
      cachedRules := None;
    }

    /**
     * `syncRules()`. Without a token nothing happens. A 401 forgets the token
     * (the in-memory userId stays); any other failure changes nothing. A
     * body replaces the rules (an absent list counts as empty), rebuilds the
     * Map and caches the list.
     */
    method SyncRules(fetch: SyncFetch)
      requires Valid()
      modifies this
      ensures Valid()
      ensures userId == old(userId) && stats == old(stats) && lastStatsDate == old(lastStatsDate)
      ensures old(token).None? || fetch.NetworkError? || (fetch.HttpError? && fetch.status != 401) ==>
        token == old(token) && rules == old(rules) && blockedUrls == old(blockedUrls) && cachedRules == old(cachedRules)
      ensures old(token).Some? && fetch.HttpError? && fetch.status == 401 ==>
        token.None? && rules == old(rules) && blockedUrls == old(blockedUrls) && cachedRules == old(cachedRules)
      ensures old(token).Some? && fetch.Fetched? ==>
        token == old(token) && rules == fetch.rules.GetOr([]) && cachedRules == Some(rules)
    {
      if token.None? {
        return;
      }
      match fetch {
        case NetworkError =>
        case HttpError(status) =>
          if status == 401 {
            token := None;
          }
        case Fetched(body) =>
          Rebuild(body.GetOr([]));
          cachedRules := Some(rules);
      }
    }

    /** Startup without a token: adopt the cached rule list, if one is stored. */
    method LoadCachedRules()
      requires Valid()
      modifies this
      ensures Valid()
      ensures old(cachedRules).Some? ==> rules == old(cachedRules).value
      ensures old(cachedRules).None? ==> rules == old(rules) && blockedUrls == old(blockedUrls)
      ensures token == old(token) && userId == old(userId) && cachedRules == old(cachedRules)
      ensures stats == old(stats) && lastStatsDate == old(lastStatsDate)
    {
      if cachedRules.Some? {
        Rebuild(cachedRules.value);
      }
    }

    /** `initializeStats()`: store zeroed statistics dated today, unless statistics are stored. */
    method InitializeStats(today: string)
      modifies this
      ensures old(stats).None? ==> stats == Some(FreshStats) && lastStatsDate == Some(today)
      ensures old(stats).Some? ==> stats == old(stats) && lastStatsDate == old(lastStatsDate)
      ensures token == old(token) && userId == old(userId) && rules == old(rules)
      ensures blockedUrls == old(blockedUrls) && cachedRules == old(cachedRules)
    {
      if stats.None? {
        stats := Some(FreshStats);
        lastStatsDate := Some(today);
      }
    }

    /**
     * `checkAndResetDailyStats()` with `today` the date string: on a new date
     * the streak grows by one when something was blocked (it is never reset
     * here) and the day's counter is zeroed.
     */
    method CheckAndResetDailyStats(today: string)
      modifies this
      ensures old(lastStatsDate) == Some(today) ==> stats == old(stats) && lastStatsDate == old(lastStatsDate)
      ensures old(lastStatsDate) != Some(today) ==>
        var s := old(stats).GetOr(FreshStats);
        && stats == Some(Stats(0, if s.blockedToday > 0 then s.streak + 1 else s.streak, s.totalBlocked))
        && lastStatsDate == Some(today)
      ensures token == old(token) && userId == old(userId) && rules == old(rules)
      ensures blockedUrls == old(blockedUrls) && cachedRules == old(cachedRules)
    {
      if lastStatsDate != Some(today) {
        var s := stats.GetOr(FreshStats);
        if s.blockedToday > 0 {
          s := s.(streak := s.streak + 1);
        }
        s := s.(blockedToday := 0);
        stats := Some(s);
        lastStatsDate := Some(today);
      }
    }

    /** The local half of `recordAccessAttempt()`: one more block today and in total. */
    method RecordAccessAttempt()
      modifies this
      ensures var s := old(stats).GetOr(FreshStats);
        stats == Some(s.(blockedToday := s.blockedToday + 1, totalBlocked := s.totalBlocked + 1))
      ensures lastStatsDate == old(lastStatsDate)
      ensures token == old(token) && userId == old(userId) && rules == old(rules)
      ensures blockedUrls == old(blockedUrls) && cachedRules == old(cachedRules)
    {
      var s := stats.GetOr(FreshStats);
      s := s.(blockedToday := s.blockedToday + 1, totalBlocked := s.totalBlocked + 1);
      stats := Some(s);
    }

    /** `isUrlBlocked(url)` with the parsed hostname (None when the url does not parse). */
    method IsUrlBlocked(hostname: Option<string>, day: int, currentTime: string) returns (r: bool)
      ensures r == BlockedBy(blockedUrls, hostname, day, currentTime)
    {
      if hostname.None? {
        return false;
      }
      var i := 0;
      while i < |blockedUrls|
        invariant 0 <= i <= |blockedUrls|
        invariant forall k :: 0 <= k < i ==>
          !(Includes(hostname.value, blockedUrls[k].pattern) &&
            !InAllowedWindow(Some(blockedUrls[k].rule.timeWindows), day, currentTime))
      {
        var entry := blockedUrls[i];
        if Includes(hostname.value, entry.pattern) {
          var allowed := IsInAllowedTimeWindow(Some(entry.rule.timeWindows), day, currentTime);
          if !allowed {
            return true;
          }
        }
        i := i + 1;
      }
      return false;
    }
  }

  /** After logout nothing is blocked. */
  method LogoutUnblocksEverything(b: Background, hostname: Option<string>, day: int, currentTime: string)
    returns (blocked: bool)
    requires b.Valid()
    modifies b
    ensures !blocked
  {
    b.Logout();
    blocked := b.IsUrlBlocked(hostname, day, currentTime);
  }

  /** A synced rule without windows for "youtube.com" blocks "www.youtube.com" at any time. */
  method SyncedRuleBlocks(b: Background, day: int, currentTime: string) returns (blocked: bool)
    requires b.Valid() && b.token.Some?
    modifies b
    ensures blocked
  {
    var rule := Rule("r1", "youtube.com", []);
    b.SyncRules(Fetched(Some([rule])));
    assert [rule][..0] == [];
    assert MapFromRules([rule]) == MapSet(MapFromRules([]), rule.url, rule);
    assert b.blockedUrls == [Entry("youtube.com", rule)];
    IncludesSuffix("www.", "youtube.com");
    blocked := b.IsUrlBlocked(Some("www.youtube.com"), day, currentTime);
  }
}
