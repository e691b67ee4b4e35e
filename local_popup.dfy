/**
 * The stand-alone extension's popup (extension-local/popup/popup.js): the
 * countdown shown per site, its text, the status line and unlock button of
 * each listed site, the clean-up of a typed url, and the toast a remove
 * answer produces.
 */
module LocalPopup {
  import opened Common
  import opened Text
  import opened UrlClean
  import opened LocalExtension

  /** The delay the popup displays against: always six hours, whatever the settings say. */
  const DISPLAY_DELAY_MS := 6 * 60 * 60 * 1000

  /** `getTimeRemaining(unlockRequestedAt)`: what is left of a six-hour delay, never negative. */
  function GetTimeRemaining(requestedAt: int, now: int): (r: nat)
    ensures r == 0 <==> now >= requestedAt + DISPLAY_DELAY_MS
    ensures r > 0 ==> r == requestedAt + DISPLAY_DELAY_MS - now
  {
    var remaining := requestedAt + DISPLAY_DELAY_MS - now;
    if remaining > 0 then remaining else 0
  }

  /** `formatTime(ms)`: "Hh Mm" from an hour on, "Mm" below it. */
  function FormatTime(ms: nat): string
  {
    var hours := ms / (60 * 60 * 1000);
    var minutes := (ms % (60 * 60 * 1000)) / (60 * 1000);
    if hours > 0 then NatToString(hours) + "h " + NatToString(minutes) + "m"
    else NatToString(minutes) + "m"
  }

  /** The text shows whole minutes: the hour and minute fields recompose the minute count. */
  lemma FormatTimeFields(ms: nat)
    ensures var hours, minutes := ms / 3600000, (ms % 3600000) / 60000;
      minutes < 60 && hours * 60 + minutes == ms / 60000 &&
      FormatTime(ms) == (if hours > 0 then NatToString(hours) + "h " + NatToString(minutes) + "m" else NatToString(minutes) + "m")
  {
    var hours, rest := ms / 3600000, ms % 3600000;
    assert ms == hours * 3600000 + rest;
    var minutes, rest2 := rest / 60000, rest % 60000;
    assert rest == minutes * 60000 + rest2;
    assert ms == (hours * 60 + minutes) * 60000 + rest2;
  }

  /** Reading the text back: two durations show the same text exactly when they have the same whole minutes. */
  lemma FormatTimeReadsBack(a: nat, b: nat)
    ensures FormatTime(a) == FormatTime(b) <==> a / 60000 == b / 60000
  {
    FormatTimeFields(a);
    FormatTimeFields(b);
    var ha, ma := a / 3600000, (a % 3600000) / 60000;
    var hb, mb := b / 3600000, (b % 3600000) / 60000;
    if FormatTime(a) == FormatTime(b) {
      if ha > 0 && hb > 0 {
        var ta, tb := "h " + (NatToString(ma) + "m"), "h " + (NatToString(mb) + "m");
        assert FormatTime(a) == NatToString(ha) + ta by {
          assert NatToString(ha) + "h " + NatToString(ma) + "m" == NatToString(ha) + ta;
        }
        assert FormatTime(b) == NatToString(hb) + tb by {
          assert NatToString(hb) + "h " + NatToString(mb) + "m" == NatToString(hb) + tb;
        }
        NumberPrefixCancel(ha, ta, hb, tb);
        assert ta[2..] == NatToString(ma) + "m";
        assert tb[2..] == NatToString(mb) + "m";
        NumberPrefixCancel(ma, "m", mb, "m");
      } else if ha == 0 && hb == 0 {
        NumberPrefixCancel(ma, "m", mb, "m");
      }
    }
  }

  /** The status line of a listed site. */
  function StatusText(site: LocalSite, now: int): (meta: string)
    ensures !site.isActive ==> meta == "Paused"
    ensures site.isActive && site.unlockRequestedAt.None? ==> meta == "Active"
    ensures site.isActive && site.unlockRequestedAt.Some? ==>
      var remaining := GetTimeRemaining(site.unlockRequestedAt.value, now);
      meta == if remaining > 0 then "Unlocking in " + FormatTime(remaining) else "Ready to remove"
  {
    var isUnlocking := site.unlockRequestedAt.Some?;
    var meta := if site.isActive then "Active" else "Paused";
    if isUnlocking && site.isActive then
      var remaining := GetTimeRemaining(site.unlockRequestedAt.value, now);
      if remaining > 0 then "Unlocking in " + FormatTime(remaining) else "Ready to remove"
    else meta
  }

  /** The optional button beside the always-present remove button. */
  datatype UnlockButton = RequestUnlockButton | CancelUnlockButton | NoUnlockButton

  /** Which unlock button a listed site gets. */
  function UnlockButtonFor(site: LocalSite): UnlockButton
  {
    if site.isActive && site.unlockRequestedAt.None? then RequestUnlockButton
    else if site.unlockRequestedAt.Some? then CancelUnlockButton
    else NoUnlockButton
  }

  /**
   * The buttons track the lifecycle: a request button exactly for an active
   * site with no request, a cancel button exactly for a site with a request
   * (paused or not), and nothing for a paused site without one.
   */
  lemma UnlockButtonCases(site: LocalSite)
    ensures UnlockButtonFor(site) == RequestUnlockButton <==> site.isActive && site.unlockRequestedAt.None?
    ensures UnlockButtonFor(site) == CancelUnlockButton <==> site.unlockRequestedAt.Some?
    ensures UnlockButtonFor(site) == NoUnlockButton <==> !site.isActive && site.unlockRequestedAt.None?
  {
  }

  /** `handleAddSite`: trim, send nothing for a blank entry, otherwise lower-case and clean. */
  function HandleAddSite(typed: string): (sent: Option<string>)
    ensures sent.None? <==> Trim(typed) == ""
    ensures sent.Some? ==> sent.value == CleanLowerHost(Trim(typed)) && '/' !in sent.value
  {
    var url := Trim(typed);
    if url == "" then None else Some(CleanLowerHost(url))
  }

  /** A cleaned host is a piece of the text it came from. */
  lemma CleanHostIsSlice(s: string)
    ensures exists a, b :: 0 <= a <= b <= |s| && CleanHost(s) == s[a..b]
  {
    var t := StripScheme(s);
    var a := |s| - |t|;
    assert t == s[a..];
    var u := StripWww(t);
    var a2 := a + (|t| - |u|);
    assert u == s[a2..];
    var c := BeforeSlash(u);
    assert c == s[a2..a2 + |c|];
  }

  /** Lower-casing what is already lower-cased changes nothing. */
  lemma LowerOfLowerPiece(s: string, a: nat, b: nat)
    requires a <= b <= |s|
    ensures ToLower(ToLower(s)[a..b]) == ToLower(s)[a..b]
  {
  }

  /**
   * What the popup sends is what the worker stores, except that a host which
   * still starts with "www." after cleaning (such as "www.www.x") loses one
   * more "www." on the second pass.
   */
  lemma PopupUrlIsStoredUrl(typed: string)
    requires HandleAddSite(typed).Some?
    ensures var sent := HandleAddSite(typed).value;
      CleanLowerHost(sent) == if StartsWith(sent, "www.") then sent[4..] else sent
  {
    var sent := HandleAddSite(typed).value;
    var lowered := ToLower(Trim(typed));
    CleanHostIsSlice(lowered);
    var a, b :| 0 <= a <= b <= |lowered| && sent == lowered[a..b];
    LowerOfLowerPiece(Trim(typed), a, b);
    assert ToLower(sent) == sent;
    CleanHostTwice(lowered);
  }

  /** The fields of the answer object that the remove handler reads. */
  datatype Reply = Reply(success: bool, error: Option<string>, needsUnlock: bool, remaining: Option<int>)

  /** The answer object the worker resolves with for an outcome. */
  function ToReply(o: Outcome): (r: Reply)
    ensures r.success <==> o.Done? || o.WindowAdded?
  {
    match o
    case Done(_) => Reply(true, None, false, None)
    case WindowAdded(_) => Reply(true, None, false, None)
    case AlreadyBlocked => Reply(false, Some("Site already blocked"), false, None)
    case SiteNotFound => Reply(false, Some("Site not found"), false, None)
    case NeedsUnlock => Reply(false, Some("Request unlock first"), true, None)
    case NotReady(remaining) => Reply(false, Some("Unlock not ready"), false, Some(remaining))
  }

  datatype Toast = Removed | AskForUnlock | Wait(text: string) | Failure(text: string)

  /**
   * The remove handler's toast, tested in order: success, needsUnlock, a
   * truthy remaining, else the error. Only positive remainders are shown
   * (the worker sends no other; see the gate's contract).
   */
  function RemoveToast(r: Reply): Toast
  {
    if r.success then Removed
    else if r.needsUnlock then AskForUnlock
    else if r.remaining.Some? && r.remaining.value > 0 then
      Wait("Wait " + FormatTime(r.remaining.value))
    else Failure(r.error.GetOr("Failed to remove"))
  }

  /** Every answer `removeSite` can give is shown with its own toast. */
  lemma RemoveToastPerOutcome(site: LocalSite, settings: Option<Settings>, now: int)
    ensures RemoveToast(ToReply(Done(None))) == Removed
    ensures RemoveToast(ToReply(SiteNotFound)) == Failure("Site not found")
    ensures Gate(site, settings, now) == Some(NeedsUnlock) ==>
      RemoveToast(ToReply(Gate(site, settings, now).value)) == AskForUnlock
    ensures Gate(site, settings, now).Some? && Gate(site, settings, now).value.NotReady? ==>
      RemoveToast(ToReply(Gate(site, settings, now).value)) ==
        Wait("Wait " + FormatTime(Gate(site, settings, now).value.remaining))
  {
  }
}
