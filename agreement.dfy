/**
 * How the three copies of the unlock and schedule rules relate: the
 * dashboard against the server, the local extension against the server,
 * the local popup against its own background, and the synced extension's
 * window meaning against the local one.
 */
module Agreement {
  import opened Common
  import opened Schema
  import Srv = SitesRoutes
  import Dash = SiteList
  import Synced = SyncedExtension
  import Sync
  import Clock
  import Local = LocalExtension
  import Popup = LocalPopup

  /** A "pause" click: the body the dashboard sends. */
  const DeactivateBody := Srv.PutBody(None, None, Some(false))

  /**
   * The dashboard sends a pause for an active site exactly when the server,
   * at the moment the list was fetched, would accept it.
   */
  lemma DashboardPauseMatchesServer(site: BlockedSite, ws: seq<TimeWindow>, fetch: Instant, c: Dash.Countdowns)
    requires site.isActive && Dash.AllPositive(c)
    ensures Dash.ToggleActionFor(Srv.View(site, ws, fetch), c) == Dash.SendUpdate(false) <==>
      Srv.PutDecision(site, DeactivateBody, fetch).PutWrite?
  {
    Dash.ReadyIsServerReady(Srv.View(site, ws, fetch), c);
    Srv.PutRefusesPrematureDeactivation(site, DeactivateBody, fetch);
  }

  /** The dashboard sends a delete exactly when the user confirms and the server's gate, at the fetch, is open. */
  lemma DashboardDeleteMatchesServer(site: BlockedSite, ws: seq<TimeWindow>, fetch: Instant, c: Dash.Countdowns, confirmed: bool)
    requires Dash.AllPositive(c)
    ensures Dash.DeleteActionFor(Srv.View(site, ws, fetch), c, confirmed) == Dash.SendDelete <==>
      confirmed && Srv.UnlockGate(site, fetch).None?
  {
    Dash.ReadyIsServerReady(Srv.View(site, ws, fetch), c);
    Srv.UnlockGateOutcomes(site, fetch);
  }

  /**
   * With the corrected tick the dashboard's own readiness, k seconds after
   * the fetch, is the server's readiness at that moment: it opens neither
   * early nor late.
   */
  lemma CorrectedCountdownTracksServer(site: BlockedSite, ws: seq<TimeWindow>, fetch: Instant, k: nat)
    requires site.unlockRequestedAt.Some?
    ensures var v := Srv.View(site, ws, fetch);
      Dash.ReadyShown(v, Dash.TicksOf(map[site.id := v.timeRemaining.value], k)) <==>
      Srv.IsUnlockReady(site.unlockRequestedAt, fetch + 1000 * k)
  {
    var v := Srv.View(site, ws, fetch);
    Dash.TicksOfValue(map[site.id := v.timeRemaining.value], k, site.id);
  }

  /** The local extension's first-run settings: nothing stored yet, or the seeded six hours. */
  predicate DefaultDelay(settings: Option<Local.Settings>)
  {
    settings.None? || settings == Some(Local.DefaultSettings)
  }

  /**
   * With the default settings the local gate and the server's gate give the
   * same answer on an active site with the same request time, down to the
   * remainder they report.
   */
  lemma LocalGateMatchesServer(local: Local.LocalSite, site: BlockedSite, settings: Option<Local.Settings>, now: int)
    requires DefaultDelay(settings) && local.isActive && local.unlockRequestedAt == site.unlockRequestedAt
    ensures Local.Gate(local, settings, now).None? <==> Srv.UnlockGate(site, now).None?
    ensures Local.Gate(local, settings, now) == Some(Local.NeedsUnlock) <==> Srv.UnlockGate(site, now) == Some(Srv.UnlockNotRequested)
    ensures forall r :: Local.Gate(local, settings, now) == Some(Local.NotReady(r)) <==> Srv.UnlockGate(site, now) == Some(Srv.UnlockNotReady(r))
  {
  }

  /**
   * The local popup counts down a fixed six hours and ignores the stored
   * delay: the "ready to remove" it shows agrees with the background's
   * gate at every moment when the delay is six hours ...
   */
  lemma PopupMatchesGateAtDefault(local: Local.LocalSite, settings: Option<Local.Settings>, now: int)
    requires DefaultDelay(settings) && local.isActive && local.unlockRequestedAt.Some?
    ensures Local.Gate(local, settings, now).None? <==> Popup.GetTimeRemaining(local.unlockRequestedAt.value, now) == 0
  {
  }

  /** ... and disagrees at some moment for any other whole-hour delay. */
  lemma PopupIgnoresConfiguredDelay(local: Local.LocalSite, hours: int)
    requires local.isActive && local.unlockRequestedAt.Some? && hours != Local.DEFAULT_UNLOCK_DELAY_HOURS
    ensures var requested := local.unlockRequestedAt.value;
      var now := requested + (if hours < 6 then hours else 6) * Local.HOUR_MS;
      Local.Gate(local, Some(Local.Settings(Some(hours))), now).None? != (Popup.GetTimeRemaining(requested, now) == 0)
  {
  }

  /** A synced window as the local extension stores one: a weekday becomes a one-day list. */
  function ToLocalWindow(w: Sync.RuleWindow): (l: Local.LocalWindow)
    ensures l.id == w.id && l.startTime == w.startTime && l.endTime == w.endTime
    ensures w.dayOfWeek.None? <==> l.days.None?
    ensures l.days.Some? ==> l.days.value == [w.dayOfWeek.value]
  {
    Local.LocalWindow(w.id, if w.dayOfWeek.Some? then Some([w.dayOfWeek.value]) else None, w.startTime, w.endTime)
  }

  predicate ShortTimes(ws: seq<Sync.RuleWindow>)
  {
    forall i :: 0 <= i < |ws| ==> |ws[i].startTime| <= 5 && |ws[i].endTime| <= 5
  }

  /** One window: the moments the synced copy allows are the ones the local copy blocks. */
  lemma WindowMeaningsCoincide(w: Sync.RuleWindow, day: int, currentTime: string)
    requires |w.startTime| <= 5 && |w.endTime| <= 5
    ensures Synced.WindowAllows(w, day, currentTime) <==> Local.WindowBlocks(ToLocalWindow(w), day, currentTime)
  {
    assert Clock.Slice5(w.startTime) == w.startTime;
    assert Clock.Slice5(w.endTime) == w.endTime;
  }

  /**
   * The two extensions read the same windows in opposite senses: the synced
   * copy blocks OUTSIDE them, the local copy blocks INSIDE them. With no
   * windows both block at every moment.
   */
  lemma OppositeWindowMeaning(ws: seq<Sync.RuleWindow>, day: int, currentTime: string)
    requires ShortTimes(ws)
    ensures var local := Some(seq(|ws|, i requires 0 <= i < |ws| => ToLocalWindow(ws[i])));
      (|ws| == 0 ==> !Synced.InAllowedWindow(Some(ws), day, currentTime) && Local.BlockNow(local, day, currentTime)) &&
      (|ws| > 0 ==> (Synced.InAllowedWindow(Some(ws), day, currentTime) <==> Local.BlockNow(local, day, currentTime)))
  {
    var ls := seq(|ws|, i requires 0 <= i < |ws| => ToLocalWindow(ws[i]));
    forall i | 0 <= i < |ws|
      ensures Synced.WindowAllows(ws[i], day, currentTime) <==> Local.WindowBlocks(ls[i], day, currentTime)
    {
      WindowMeaningsCoincide(ws[i], day, currentTime);
    }
  }
}
