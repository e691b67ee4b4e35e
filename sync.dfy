/**
 * GET /sync (backend/src/routes/sync.ts): the rule list the browser
 * extension downloads — one rule per ACTIVE site of the caller, carrying
 * that site's windows with only the four fields the extension reads.
 */
module Sync {
  import opened Common
  import opened Schema

  datatype RuleWindow = RuleWindow(id: Id, dayOfWeek: Option<int>, startTime: string, endTime: string)

  datatype Rule = Rule(id: Id, url: string, timeWindows: seq<RuleWindow>)

  /** The projection of one window row. */
  function ToRuleWindow(w: TimeWindow): (rw: RuleWindow)
    ensures rw.id == w.id && rw.dayOfWeek == w.dayOfWeek && rw.startTime == w.startTime && rw.endTime == w.endTime
  {
    RuleWindow(w.id, w.dayOfWeek, w.startTime, w.endTime)
  }

  /** The windows of one site, in the order the window query returns them. */
  function WindowsOf(siteId: Id, windowRows: seq<TimeWindow>): (r: seq<RuleWindow>)
    ensures |r| <= |windowRows|
  {
    var mine := Filter(windowRows, (w: TimeWindow) => w.blockedSiteId == siteId);
    seq(|mine|, i requires 0 <= i < |mine| => ToRuleWindow(mine[i]))
  }

  function ActiveSites(siteRows: seq<BlockedSite>): (r: seq<BlockedSite>)
    ensures forall s :: s in r <==> s in siteRows && s.isActive
  {
    Filter(siteRows, (s: BlockedSite) => s.isActive)
  }

  /** The site query's `where(eq(blockedSites.userId, req.userId))`: the caller's rows, in scan order. */
  function SitesOf(userId: Id, siteRows: seq<BlockedSite>): (r: seq<BlockedSite>)
    ensures forall s :: s in r <==> s in siteRows && s.userId == userId
  {
    Filter(siteRows, (s: BlockedSite) => s.userId == userId)
  }

  /**
   * The response body's rules for the caller `userId`. `siteRows` stands for
   * the site table as the query scans it, `windowRows` for the window table.
   */
  function SyncRules(userId: Id, siteRows: seq<BlockedSite>, windowRows: seq<TimeWindow>): (rules: seq<Rule>)
  {
    RulesFor(ActiveSites(SitesOf(userId, siteRows)), windowRows)
  }

  /** One rule per listed site, in order. */
  function RulesFor(sites: seq<BlockedSite>, windowRows: seq<TimeWindow>): (rules: seq<Rule>)
    ensures |rules| == |sites|
  {
    seq(|sites|, i requires 0 <= i < |sites| => Rule(sites[i].id, sites[i].url, WindowsOf(sites[i].id, windowRows)))
  }

  lemma RulesForConcat(x: seq<BlockedSite>, y: seq<BlockedSite>, windowRows: seq<TimeWindow>)
    ensures RulesFor(x + y, windowRows) == RulesFor(x, windowRows) + RulesFor(y, windowRows)
  {
    var l, r := RulesFor(x + y, windowRows), RulesFor(x, windowRows) + RulesFor(y, windowRows);
    forall i | 0 <= i < |l|
      ensures l[i] == r[i]
    {
      if i < |x| {
        assert (x + y)[i] == x[i];
      } else {
        assert (x + y)[i] == y[i - |x|];
      }
    }
  }

  /** Every rule comes from an active site of the caller, with that site's id, url and windows. */
  lemma SyncSound(userId: Id, siteRows: seq<BlockedSite>, windowRows: seq<TimeWindow>, r: Rule)
    requires r in SyncRules(userId, siteRows, windowRows)
    ensures exists s :: s in siteRows && s.userId == userId && s.isActive && r == Rule(s.id, s.url, WindowsOf(s.id, windowRows))
  {
    var active := ActiveSites(SitesOf(userId, siteRows));
    var i :| 0 <= i < |active| && SyncRules(userId, siteRows, windowRows)[i] == r;
    assert active[i] in active;
  }

  /**
   * Every active site of the caller yields a rule. A site that is inactive,
   * or belongs to another user, yields none (when no other row shares its id).
   */
  lemma SyncComplete(userId: Id, siteRows: seq<BlockedSite>, windowRows: seq<TimeWindow>, s: BlockedSite)
    requires s in siteRows
    ensures s.userId == userId && s.isActive ==> Rule(s.id, s.url, WindowsOf(s.id, windowRows)) in SyncRules(userId, siteRows, windowRows)
    ensures !(s.userId == userId && s.isActive) && (forall t :: t in siteRows && t.id == s.id ==> t == s) ==>
      forall r :: r in SyncRules(userId, siteRows, windowRows) ==> r.id != s.id
  {
    var active := ActiveSites(SitesOf(userId, siteRows));
    var rules := SyncRules(userId, siteRows, windowRows);
    if s.userId == userId && s.isActive {
      var i :| 0 <= i < |active| && active[i] == s;
      assert rules[i] == Rule(s.id, s.url, WindowsOf(s.id, windowRows));
    } else if forall t :: t in siteRows && t.id == s.id ==> t == s {
      forall r | r in rules
        ensures r.id != s.id
      {
        var i :| 0 <= i < |rules| && rules[i] == r;
        assert active[i] in active;
      }
    }
  }

  /** Another user's site never yields a rule, whether or not it is active. */
  lemma SyncExcludesOtherUsers(userId: Id, siteRows: seq<BlockedSite>, windowRows: seq<TimeWindow>, s: BlockedSite)
    requires s in siteRows && s.userId != userId
    requires forall t :: t in siteRows && t.id == s.id ==> t == s
    ensures forall r :: r in SyncRules(userId, siteRows, windowRows) ==> r.id != s.id
  {
    SyncComplete(userId, siteRows, windowRows, s);
  }

  /** A rule's windows are exactly its site's window rows, projected, in order. */
  lemma WindowsOfExact(siteId: Id, windowRows: seq<TimeWindow>, rw: RuleWindow)
    ensures rw in WindowsOf(siteId, windowRows) <==>
      exists w :: w in windowRows && w.blockedSiteId == siteId && rw == ToRuleWindow(w)
  {
    var mine := Filter(windowRows, (w: TimeWindow) => w.blockedSiteId == siteId);
    var r := WindowsOf(siteId, windowRows);
    if rw in r {
      var i :| 0 <= i < |r| && r[i] == rw;
      assert mine[i] in mine;
    }
    if exists w :: w in windowRows && w.blockedSiteId == siteId && rw == ToRuleWindow(w) {
      var w :| w in windowRows && w.blockedSiteId == siteId && rw == ToRuleWindow(w);
      var i :| 0 <= i < |mine| && mine[i] == w;
      assert r[i] == rw;
    }
  }

  /**
   * The rules keep the order of the site rows: syncing two runs of rows one
   * after the other gives the two rule lists one after the other.
   */
  lemma {:induction false} SyncConcat(userId: Id, a: seq<BlockedSite>, b: seq<BlockedSite>, windowRows: seq<TimeWindow>)
    ensures SyncRules(userId, a + b, windowRows) == SyncRules(userId, a, windowRows) + SyncRules(userId, b, windowRows)
  {
    FilterConcat(a, b, (s: BlockedSite) => s.userId == userId);
    FilterConcat(SitesOf(userId, a), SitesOf(userId, b), (s: BlockedSite) => s.isActive);
    RulesForConcat(ActiveSites(SitesOf(userId, a)), ActiveSites(SitesOf(userId, b)), windowRows);
  }

  /** One rule per active site of the caller. */
  lemma {:induction false} SyncCount(userId: Id, siteRows: seq<BlockedSite>, windowRows: seq<TimeWindow>)
    ensures |SyncRules(userId, siteRows, windowRows)| <= |siteRows|
    ensures (forall i :: 0 <= i < |siteRows| ==> siteRows[i].userId == userId && siteRows[i].isActive) ==>
      |SyncRules(userId, siteRows, windowRows)| == |siteRows|
    ensures (forall i :: 0 <= i < |siteRows| ==> siteRows[i].userId != userId || !siteRows[i].isActive) ==>
      SyncRules(userId, siteRows, windowRows) == []
    decreases |siteRows|
  {
    if |siteRows| > 0 {
      assert siteRows == [siteRows[0]] + siteRows[1..];
      SyncConcat(userId, [siteRows[0]], siteRows[1..], windowRows);
      SyncCount(userId, siteRows[1..], windowRows);
    }
  }
}
