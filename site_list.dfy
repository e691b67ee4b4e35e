/**
 * The dashboard's site list (frontend/src/components/SiteList.tsx): the
 * countdown text, the per-site countdowns that tick once a second, the
 * local readiness test that guards pausing and deleting, which control a
 * site shows, and the local removal of a deleted window.
 */
module SiteList {
  import opened Common
  import opened Text
  import opened Schema
  import opened SitesRoutes

  /** `formatTimeRemaining(ms)`: "Hh MMm" from an hour, "Mm SSs" from a minute, else "Ss". */
  function FormatTimeRemaining(ms: nat): string
  {
    var hours := ms / (1000 * 60 * 60);
    var minutes := (ms % (1000 * 60 * 60)) / (1000 * 60);
    var seconds := (ms % (1000 * 60)) / 1000;
    if hours > 0 then NatToString(hours) + "h " + PadStart2(NatToString(minutes)) + "m"
    else if minutes > 0 then NatToString(minutes) + "m " + PadStart2(NatToString(seconds)) + "s"
    else NatToString(seconds) + "s"
  }

  /** The three fields are the hours, the minutes below 60 and the seconds below 60 of the whole seconds of ms. */
  lemma FormatTimeRemainingFields(ms: nat)
    ensures var secs := ms / 1000;
      ms / 3600000 == secs / 3600 && (ms % 3600000) / 60000 == (secs % 3600) / 60 && (ms % 60000) / 1000 == secs % 60
  {
    HourField(ms);
    MinuteField(ms);
    SecondField(ms);
  }

  lemma HourField(ms: nat)
    ensures ms / 3600000 == (ms / 1000) / 3600 && ms % 3600000 == ((ms / 1000) % 3600) * 1000 + ms % 1000
  {
    var secs, r := ms / 1000, ms % 1000;
    var h, rs := secs / 3600, secs % 3600;
    assert ms == h * 3600000 + (rs * 1000 + r);
    assert 0 <= rs * 1000 + r < 3600000;
  }

  lemma MinuteField(ms: nat)
    ensures (ms % 3600000) / 60000 == ((ms / 1000) % 3600) / 60
  {
    HourField(ms);
    var rs, r := (ms / 1000) % 3600, ms % 1000;
    var m, s := rs / 60, rs % 60;
    assert ms % 3600000 == m * 60000 + (s * 1000 + r);
    assert 0 <= s * 1000 + r < 60000;
  }

  lemma SecondField(ms: nat)
    ensures (ms % 60000) / 1000 == (ms / 1000) % 60
  {
    var secs, r := ms / 1000, ms % 1000;
    var mins, s := secs / 60, secs % 60;
    assert ms == mins * 60000 + (s * 1000 + r);
    assert 0 <= s * 1000 + r < 60000;
    assert ms % 60000 == s * 1000 + r;
  }

  /** A two-digit field reads back as its value. */
  lemma PaddedReadsBack(n: nat)
    requires n < 100
    ensures var p := PadStart2(NatToString(n)); |p| == 2 && AllDigits(p) && ParseDigits(p) == n
  {
    var p := PadStart2(NatToString(n));
    if n < 10 {
      assert p == ['0', DigitChar(n)];
      assert p[..1] == ['0'];
      assert ParseDigits(['0'][..0]) == 0;
    } else {
      assert NatToString(n) == NatToString(n / 10) + [DigitChar(n % 10)];
      ParseNatToString(n);
    }
  }

  /** Two fields below 100 with the same padded text are equal. */
  lemma PaddedInjective(m: nat, n: nat)
    requires m < 100 && n < 100 && PadStart2(NatToString(m)) == PadStart2(NatToString(n))
    ensures m == n
  {
    PaddedReadsBack(m);
    PaddedReadsBack(n);
  }

  /** The two-character field between a two-character unit and a suffix. */
  lemma MiddleFieldCancel(unit: string, pa: string, pb: string, last: string)
    requires |unit| == 2 && |pa| == 2 && |pb| == 2 && unit + pa + last == unit + pb + last
    ensures pa == pb
  {
    assert (unit + pa + last)[2..4] == pa;
    assert (unit + pb + last)[2..4] == pb;
  }

  /** `formatTimeRemaining` on the whole seconds. */
  function SecondsText(secs: nat): string
  {
    var hours, minutes, seconds := secs / 3600, (secs % 3600) / 60, secs % 60;
    if hours > 0 then NatToString(hours) + "h " + PadStart2(NatToString(minutes)) + "m"
    else if minutes > 0 then NatToString(minutes) + "m " + PadStart2(NatToString(seconds)) + "s"
    else NatToString(seconds) + "s"
  }

  lemma SecondsTextOfMs(ms: nat)
    ensures FormatTimeRemaining(ms) == SecondsText(ms / 1000)
  {
    FormatTimeRemainingFields(ms);
  }

  /** The leading number of the text: hours, else minutes, else seconds. */
  function Lead(secs: nat): nat
  {
    if secs / 3600 > 0 then secs / 3600 else if (secs % 3600) / 60 > 0 then (secs % 3600) / 60 else secs % 60
  }

  /** What follows the leading number. */
  function Tail(secs: nat): string
  {
    if secs / 3600 > 0 then "h " + PadStart2(NatToString((secs % 3600) / 60)) + "m"
    else if (secs % 3600) / 60 > 0 then "m " + PadStart2(NatToString(secs % 60)) + "s"
    else "s"
  }

  lemma SecondsTextShape(secs: nat)
    ensures SecondsText(secs) == NatToString(Lead(secs)) + Tail(secs)
    ensures |Tail(secs)| > 0 && !IsDigit(Tail(secs)[0])
  {
    var h, m, sec := secs / 3600, (secs % 3600) / 60, secs % 60;
    if h > 0 {
      Associate(NatToString(h), "h ", PadStart2(NatToString(m)), "m");
    } else if m > 0 {
      Associate(NatToString(m), "m ", PadStart2(NatToString(sec)), "s");
    }
  }

  lemma Associate(a: string, b: string, c: string, d: string)
    ensures a + b + c + d == a + (b + c + d)
  {
  }

  /** Equal tails mean the same unit and the same padded field. */
  lemma TailCancel(x: nat, y: nat)
    requires Tail(x) == Tail(y)
    ensures (x / 3600 > 0 <==> y / 3600 > 0)
    ensures x / 3600 > 0 ==> (x % 3600) / 60 == (y % 3600) / 60
    ensures x / 3600 == 0 ==> ((x % 3600) / 60 > 0 <==> (y % 3600) / 60 > 0)
    ensures x / 3600 == 0 && (x % 3600) / 60 > 0 ==> x % 60 == y % 60
  {
    var mx, my, sx, sy := (x % 3600) / 60, (y % 3600) / 60, x % 60, y % 60;
    PaddedReadsBack(mx);
    PaddedReadsBack(my);
    PaddedReadsBack(sx);
    PaddedReadsBack(sy);
    if x / 3600 > 0 && y / 3600 > 0 {
      MiddleFieldCancel("h ", PadStart2(NatToString(mx)), PadStart2(NatToString(my)), "m");
      PaddedInjective(mx, my);
    } else if x / 3600 == 0 && y / 3600 == 0 && mx > 0 && my > 0 {
      MiddleFieldCancel("m ", PadStart2(NatToString(sx)), PadStart2(NatToString(sy)), "s");
      PaddedInjective(sx, sy);
    } else {
      // the unit letters, or the lengths, of the two tails differ
      assert Tail(x)[0] == Tail(y)[0] && |Tail(x)| == |Tail(y)|;
    }
  }

  /**
   * The seconds the text resolves: from an hour up the seconds field is
   * not shown, so the text only tells whole minutes apart.
   */
  function Resolved(secs: nat): nat
  {
    if secs / 3600 > 0 then (secs / 60) * 60 else secs
  }

  /** The hour and minute fields are the parts of the whole minutes. */
  lemma MinuteFields(secs: nat)
    ensures secs / 3600 == (secs / 60) / 60 && (secs % 3600) / 60 == (secs / 60) % 60
  {
    var mins, s := secs / 60, secs % 60;
    var h, m := mins / 60, mins % 60;
    assert secs == h * 3600 + (m * 60 + s);
    assert 0 <= m * 60 + s < 3600;
  }

  /** Equal texts have equal hours, equal minutes, and below an hour equal seconds. */
  lemma SameTextSameFields(x: nat, y: nat)
    requires SecondsText(x) == SecondsText(y)
    ensures x / 3600 == y / 3600 && (x % 3600) / 60 == (y % 3600) / 60
    ensures x / 3600 == 0 ==> x % 60 == y % 60
  {
    SecondsTextShape(x);
    SecondsTextShape(y);
    NumberPrefixCancel(Lead(x), Tail(x), Lead(y), Tail(y));
    TailCancel(x, y);
  }

  /** Whole seconds and whole minutes in terms of the three fields. */
  lemma Recompose(x: nat)
    ensures x == (x / 3600) * 3600 + ((x % 3600) / 60) * 60 + x % 60
    ensures x / 60 == (x / 3600) * 60 + (x % 3600) / 60
  {
    MinuteFields(x);
  }

  /** Equal texts resolve to the same seconds. */
  lemma SameTextSameResolved(x: nat, y: nat)
    requires SecondsText(x) == SecondsText(y)
    ensures Resolved(x) == Resolved(y)
  {
    SameTextSameFields(x, y);
    Recompose(x);
    Recompose(y);
  }

  /** The same resolved seconds give the same fields, hence the same text. */
  lemma SameResolvedSameText(x: nat, y: nat)
    requires Resolved(x) == Resolved(y)
    ensures SecondsText(x) == SecondsText(y)
  {
    MinuteFields(x);
    MinuteFields(y);
    if x / 3600 > 0 && y / 3600 > 0 {
      assert (x / 60) * 60 == (y / 60) * 60;
      assert x / 60 == y / 60;
    }
  }

  /** Two second counts give the same text exactly when they resolve to the same seconds. */
  lemma SecondsTextReadsBack(x: nat, y: nat)
    ensures SecondsText(x) == SecondsText(y) <==> Resolved(x) == Resolved(y)
  {
    if SecondsText(x) == SecondsText(y) {
      SameTextSameResolved(x, y);
    }
    if Resolved(x) == Resolved(y) {
      SameResolvedSameText(x, y);
    }
  }

  /**
   * Reading the text back: below an hour two durations show the same text
   * exactly when they have the same whole seconds, from an hour up exactly
   * when they have the same whole minutes.
   */
  lemma FormatTimeRemainingReadsBack(a: nat, b: nat)
    ensures FormatTimeRemaining(a) == FormatTimeRemaining(b) <==> Resolved(a / 1000) == Resolved(b / 1000)
    ensures a < 3600000 && b < 3600000 ==> (FormatTimeRemaining(a) == FormatTimeRemaining(b) <==> a / 1000 == b / 1000)
    ensures a >= 3600000 && b >= 3600000 ==> (FormatTimeRemaining(a) == FormatTimeRemaining(b) <==> a / 60000 == b / 60000)
  {
    SecondsTextOfMs(a);
    SecondsTextOfMs(b);
    SecondsTextReadsBack(a / 1000, b / 1000);
    assert a / 60000 == (a / 1000) / 60;
    assert b / 60000 == (b / 1000) / 60;
  }

  /** The per-site countdowns, keyed by site id. */
  type Countdowns = map<Id, int>

  /** A site whose countdown starts: it has a request and a positive remainder. */
  predicate Pending(v: SiteView)
  {
    v.site.unlockRequestedAt.Some? && v.timeRemaining.Some? && v.timeRemaining.value > 0
  }

  predicate AllPositive(c: Countdowns)
  {
    forall id :: id in c ==> c[id] > 0
  }

  /**
   * `c` holds what the effect starts from: one countdown per pending site,
   * its fetched remainder (a later pending site with the same id wins).
   */
  ghost predicate StartedFrom(c: Countdowns, sites: seq<SiteView>)
  {
    && (forall id :: id in c <==> exists i :: 0 <= i < |sites| && Pending(sites[i]) && sites[i].site.id == id)
    && (forall id :: id in c ==>
          exists i :: 0 <= i < |sites| && Pending(sites[i]) && sites[i].site.id == id && c[id] == sites[i].timeRemaining.value &&
            forall k :: i < k < |sites| && sites[k].site.id == id ==> !Pending(sites[k]))
    && AllPositive(c)
  }

  /** The countdowns the effect starts from. */
  method InitialCountdowns(sites: seq<SiteView>) returns (initial: Countdowns)
    ensures StartedFrom(initial, sites)
  {
    initial := map[];
    var i := 0;
    while i < |sites|
      invariant 0 <= i <= |sites|
      invariant forall id :: id in initial <==> exists j :: 0 <= j < i && Pending(sites[j]) && sites[j].site.id == id
      invariant forall id :: id in initial ==>
        exists j :: 0 <= j < i && Pending(sites[j]) && sites[j].site.id == id && initial[id] == sites[j].timeRemaining.value &&
          forall k :: j < k < i && sites[k].site.id == id ==> !Pending(sites[k])
      invariant AllPositive(initial)
    {
      var v := sites[i];
      if Pending(v) {
        initial := initial[v.site.id := v.timeRemaining.value];
      }
      i := i + 1;
    }
  }

  /**
   * The effect run when the site list changes: with no pending site it
   * returns early and the previous countdowns stay as they were.
   */
  method SitesChanged(prev: Countdowns, sites: seq<SiteView>) returns (next: Countdowns)
    ensures (forall i :: 0 <= i < |sites| ==> !Pending(sites[i])) ==> next == prev
    ensures (exists i :: 0 <= i < |sites| && Pending(sites[i])) ==> StartedFrom(next, sites)
  {
    if forall i :: 0 <= i < |sites| ==> !Pending(sites[i]) {
      return prev;
    }
    next := InitialCountdowns(sites);
  }

  /** The countdowns after one tick of the interval as written. */
  function TickOf(prev: Countdowns): Countdowns
  {
    map id | id in prev && prev[id] - 1000 > 0 :: prev[id] - 1000
  }

  /** One tick of the interval: every countdown loses a second and those that reach 0 are dropped. */
  method Tick(prev: Countdowns) returns (updated: Countdowns)
    ensures updated == TickOf(prev)
    ensures forall id :: id in updated <==> id in prev && prev[id] - 1000 > 0
    ensures forall id :: id in updated ==> updated[id] == prev[id] - 1000
    ensures AllPositive(updated) && updated.Keys <= prev.Keys
  {
    updated := map[];
    var todo := prev.Keys;
    while todo != {}
      invariant todo <= prev.Keys
      invariant forall id :: id in updated <==> id in prev && id !in todo && prev[id] - 1000 > 0
      invariant forall id :: id in updated ==> updated[id] == prev[id] - 1000
      decreases |todo|
    {
      var id :| id in todo;
      var newTime := prev[id] - 1000;
      if newTime > 0 {
        updated := updated[id := newTime];
      }
      todo := todo - {id};
    }
  }

  /** The local readiness test of handleToggleActive, handleDelete and the controls. */
  predicate ReadyShown(v: SiteView, c: Countdowns)
  {
    v.unlockReady || (v.site.id in c && c[v.site.id] <= 0)
  }

  /**
   * Countdowns only ever hold positive values, so the second disjunct never
   * fires: the site is ready exactly when the server said so.
   */
  lemma ReadyIsServerReady(v: SiteView, c: Countdowns)
    requires AllPositive(c)
    ensures ReadyShown(v, c) == v.unlockReady
  {
  }

  /** The test for the timer: a request exists and a countdown or the server's remainder is positive. */
  predicate HasPendingUnlock(v: SiteView, c: Countdowns)
  {
    v.site.unlockRequestedAt.Some? &&
    ((v.site.id in c && c[v.site.id] > 0) || (v.timeRemaining.Some? && v.timeRemaining.value > 0))
  }

  /** `countdowns[id] || site.timeRemaining || 0`. */
  function ShownMs(v: SiteView, c: Countdowns): int
  {
    if v.site.id in c && c[v.site.id] != 0 then c[v.site.id]
    else if v.timeRemaining.Some? && v.timeRemaining.value != 0 then v.timeRemaining.value
    else 0
  }

  datatype Control = Timer(text: string) | DeleteButton | RequestUnlockButton

  /** Which control a site shows, in order: the timer while pending, else delete when ready, else request-unlock. */
  function ControlFor(v: SiteView, c: Countdowns): Control
    requires AllPositive(c) && (v.timeRemaining.Some? ==> v.timeRemaining.value >= 0)
  {
    if HasPendingUnlock(v, c) then Timer(FormatTimeRemaining(ShownMs(v, c)))
    else if ReadyShown(v, c) then DeleteButton
    else RequestUnlockButton
  }

  /** What a click on the status badge does. */
  datatype ToggleAction = SendUpdate(isActive: bool) | ShowError(message: string)

  /** `handleToggleActive(site)`: pausing waits for readiness, resuming never does. */
  function ToggleActionFor(v: SiteView, c: Countdowns): (a: ToggleAction)
    ensures !v.site.isActive ==> a == SendUpdate(true)
    ensures v.site.isActive ==> (a == SendUpdate(false) <==> ReadyShown(v, c))
    ensures a.ShowError? ==> a.message == "Request unlock first and wait 6 hours"
  {
    if v.site.isActive then
      if ReadyShown(v, c) then SendUpdate(false) else ShowError("Request unlock first and wait 6 hours")
    else SendUpdate(true)
  }

  datatype DeleteAction = SendDelete | Declined | RefuseDelete(message: string)

  /** `handleDelete(site)`: refused unless ready; otherwise it asks, and deletes on a yes. */
  function DeleteActionFor(v: SiteView, c: Countdowns, confirmed: bool): (a: DeleteAction)
    ensures a == SendDelete <==> ReadyShown(v, c) && confirmed
    ensures a.RefuseDelete? <==> !ReadyShown(v, c)
  {
    if !ReadyShown(v, c) then RefuseDelete("Wait for the 6-hour unlock period")
    else if confirmed then SendDelete
    else Declined
  }

  /** The site after a window was deleted on the server: the entries with that id go, the rest stay in order. */
  function RemoveWindowLocal(v: SiteView, windowId: Id): (r: SiteView)
    ensures r.site == v.site && r.unlockReady == v.unlockReady && r.timeRemaining == v.timeRemaining
    ensures forall w :: w in r.timeWindows <==> w in v.timeWindows && w.id != windowId
  {
    v.(timeWindows := Filter(v.timeWindows, (w: TimeWindow) => w.id != windowId))
  }

  /** Removing a window from a list run by run is removing it from each run. */
  lemma RemoveWindowKeepsOrder(a: seq<TimeWindow>, b: seq<TimeWindow>, windowId: Id)
    ensures Filter(a + b, (w: TimeWindow) => w.id != windowId) ==
      Filter(a, (w: TimeWindow) => w.id != windowId) + Filter(b, (w: TimeWindow) => w.id != windowId)
  {
    FilterConcat(a, b, (w: TimeWindow) => w.id != windowId);
  }

  /**
   * As written, a site fetched as pending keeps its timer until the list is
   * fetched again: no countdown is ever at or below 0, so the readiness test
   * never fires, and the timer never gives way to the delete control.
   */
  lemma PendingKeepsTimer(v: SiteView, c: Countdowns)
    requires Pending(v) && !v.unlockReady && AllPositive(c)
    ensures !ReadyShown(v, c) && ControlFor(v, c).Timer?
  {
  }

  /**
   * The input that shows it: a one-second countdown expires on the next
   * tick, is dropped, and the timer falls back to the fetched "1s".
   */
  lemma ExpiredCountdownShowsTimerAgain(v: SiteView)
    requires Pending(v) && !v.unlockReady && v.timeRemaining.value == 1000
    ensures TickOf(map[v.site.id := 1000]) == map[]
    ensures ControlFor(v, TickOf(map[v.site.id := 1000])) == Timer("1s")
  {
    assert TickOf(map[v.site.id := 1000]) == map[];
    OneSecondText();
  }

  lemma OneSecondText()
    ensures FormatTimeRemaining(1000) == "1s"
  {
    assert 1000 / 3600000 == 0 && (1000 % 3600000) / 60000 == 0 && (1000 % 60000) / 1000 == 1;
    assert NatToString(1) == ['1'];
  }

  predicate NonNegative(c: Countdowns)
  {
    forall id :: id in c ==> c[id] >= 0
  }

  /** The tick the readiness test expects: an expired countdown stays, at 0. */
  function TickKeepingExpiredOf(prev: Countdowns): Countdowns
  {
    map id | id in prev :: if prev[id] - 1000 > 0 then prev[id] - 1000 else 0
  }

  /** One corrected tick: no countdown is dropped, and none goes below 0. */
  method TickKeepingExpired(prev: Countdowns) returns (updated: Countdowns)
    ensures updated == TickKeepingExpiredOf(prev)
    ensures updated.Keys == prev.Keys && NonNegative(updated)
    ensures forall id :: id in prev && prev[id] > 0 ==> updated[id] == if prev[id] > 1000 then prev[id] - 1000 else 0
  {
    updated := map[];
    var todo := prev.Keys;
    while todo != {}
      invariant todo <= prev.Keys
      invariant updated.Keys == prev.Keys - todo
      invariant forall id :: id in updated ==> updated[id] == if prev[id] - 1000 > 0 then prev[id] - 1000 else 0
      decreases |todo|
    {
      var id :| id in todo;
      var newTime := prev[id] - 1000;
      updated := updated[id := if newTime > 0 then newTime else 0];
      todo := todo - {id};
    }
  }

  /** The countdowns after k corrected ticks. */
  function TicksOf(c: Countdowns, k: nat): Countdowns
  {
    if k == 0 then c else TickKeepingExpiredOf(TicksOf(c, k - 1))
  }

  /** After k corrected ticks a countdown of t shows t - 1000k, and 0 from then on. */
  lemma {:induction false} TicksOfValue(c: Countdowns, k: nat, id: Id)
    requires id in c && c[id] >= 0
    ensures id in TicksOf(c, k)
    ensures TicksOf(c, k)[id] == if c[id] - 1000 * k > 0 then c[id] - 1000 * k else 0
  {
    if k > 0 {
      TicksOfValue(c, k - 1, id);
    }
  }

  /** The intended timer test: a countdown, once it exists, decides; the fetched remainder only before it. */
  predicate HasPendingUnlockIntended(v: SiteView, c: Countdowns)
  {
    v.site.unlockRequestedAt.Some? &&
    if v.site.id in c then c[v.site.id] > 0 else v.timeRemaining.Some? && v.timeRemaining.value > 0
  }

  /** The controls with the intended timer test. */
  function ControlForIntended(v: SiteView, c: Countdowns): Control
    requires NonNegative(c) && (v.timeRemaining.Some? ==> v.timeRemaining.value >= 0)
  {
    if HasPendingUnlockIntended(v, c) then Timer(FormatTimeRemaining(ShownMs(v, c)))
    else if ReadyShown(v, c) then DeleteButton
    else RequestUnlockButton
  }

  /** While no countdown has expired the intended controls are the ones as written. */
  lemma IntendedAgreesWhileCounting(v: SiteView, c: Countdowns)
    requires AllPositive(c) && (v.timeRemaining.Some? ==> v.timeRemaining.value >= 0)
    ensures ControlForIntended(v, c) == ControlFor(v, c)
  {
  }

  /**
   * With the corrected tick a pending site's timer counts down second by
   * second and gives way to the delete control once its countdown has run
   * out, with no new fetch.
   */
  lemma CountdownUnlocksControls(v: SiteView, c: Countdowns, k: nat)
    requires Pending(v) && NonNegative(c) && v.site.id in c && c[v.site.id] == v.timeRemaining.value
    ensures NonNegative(TicksOf(c, k))
    ensures ControlForIntended(v, TicksOf(c, k)) ==
      if 1000 * k >= v.timeRemaining.value then DeleteButton
      else Timer(FormatTimeRemaining(v.timeRemaining.value - 1000 * k))
  {
    TicksNonNegative(c, k);
    TicksOfValue(c, k, v.site.id);
  }

  lemma {:induction false} TicksNonNegative(c: Countdowns, k: nat)
    requires NonNegative(c)
    ensures NonNegative(TicksOf(c, k))
  {
    if k > 0 {
      TicksNonNegative(c, k - 1);
    }
  }
}
