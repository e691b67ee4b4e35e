# GoodTurkey access decisions and unlock cooldown, in Dafny

GoodTurkey is a website blocker. A blocked site cannot be paused or removed
on impulse. Its owner first requests an unlock, then waits out a cooldown
(six hours by default), and only then may the site be deactivated or
deleted. The same rule exists in three copies:

- the backend's REST routes, over a Postgres database (`SitesRoutes`,
  `TimeWindowRoutes`, `Sync`, `Schema`);
- the synced browser extension, which downloads the server's rules and
  blocks outside their *allowed* time windows (`SyncedExtension`,
  `SyncedPopup`);
- the stand-alone local extension, which keeps everything in
  `chrome.storage`, decides the cooldown itself, and reads its windows as
  *blocked* periods (`LocalExtension`, `LocalPopup`).

The web dashboard's site list (`SiteList`) runs its own one-second
countdown beside the server's answer.

State the source changes in place is modelled as classes:

- `Schema.Database` is the database the route handlers share.
- `SyncedExtension.Background` is the synced worker: token, rule list,
  url Map, cached copy and statistics.
- `LocalExtension.LocalBackground` is the local worker: the stored
  lists, settings and statistics.

Each method is proved against a pure function or predicate of the
inputs and the old state. Pure code (projections, formatting, url
clean-up, the gates) is modelled as functions with lemmas.

`Agreement` relates the copies:

- Where they agree, it proves the agreement: the dashboard's buttons
  against the server's gate, and the local gate against the server's
  gate at the default delay.
- Where they differ, it proves the difference: the popup ignores the
  configured delay, and the two extensions read windows with opposite
  meanings.

Supporting modules:

- `Common`: Option, and `Filter` as JavaScript's `Array.prototype.filter`.
- `Text`: decimal text, `toLowerCase` on ASCII, `trim`, `padStart`,
  JavaScript string `<=`.
- `Clock`: "HH:MM" strings and minutes of the day.
- `UrlClean`: the `^(https?:\/\/)?(www\.)?` replace followed by
  `split('/')[0]`.

Some intuitive expectations do not hold in the code. The model follows
the code:

- The local extension's windows are blocked periods; the synced
  extension's windows are allowed periods.
- A successful deactivation keeps `unlockRequestedAt`.
- The server gates deletion even for an inactive site.
- No copy checks that a window's start comes before its end.
- The seed's day-5 window is labelled Saturday in a comment, but under
  `getDay` 5 is Friday (`SyncedExtension.SeededFridayWindow`).

## Model

| member | source | states |
|---|---|---|
| Common.Filter | frontend/src/components/SiteList.tsx:146-149 | the kept elements are exactly those of the input that satisfy the predicate, never more elements than the input |
| Common.FilterConcat | frontend/src/components/SiteList.tsx:146-149 | filtering distributes over concatenation, so the relative order of kept elements is preserved |
| Text.ParseNatToString | extension-local/popup/popup.js:203-211 | the decimal text `String(n)` reads back to n |
| Text.NatToStringInjective | extension-local/popup/popup.js:203-211 | distinct numbers have distinct decimal texts |
| Text.ToLower | extension-local/background.js:469 | lower-casing maps each character, keeping the length |
| Text.Trim | extension-local/popup/popup.js:217-218 | the result is the input with only the JavaScript white space and line terminators at its two ends cut off: it is a piece of the input, everything around it is white space, its own ends are not, and it is empty exactly when the input is blank |
| Text.PadStart2 | frontend/src/components/SiteList.tsx:12-24 | `padStart(2,'0')` leaves texts of length 2 or more alone and left-fills shorter ones with '0' to length 2 |
| Clock.ClockText | extension/background.js:190-213 | every minute of the day has a well-formed "HH:MM" text that denotes it |
| Clock.Slice5OfHHMMSS | extension/background.js:190-213 | `slice(0,5)` of the database's "HH:MM:SS" is its "HH:MM" part |
| Clock.LexLeIsTimeOrder | extension/background.js:190-213 | JavaScript string `<=` on "HH:MM" texts is the order of the minutes of the day |
| UrlClean.SlashIndex | extension/popup/popup.js:173-180 | the index of the first '/' or the length when none |
| UrlClean.BeforeSlash | extension/popup/popup.js:173-180 | `split('/')[0]` contains no '/' |
| UrlClean.StripScheme | extension/popup/popup.js:173-180 | the scheme group removes exactly a leading "https://" or "http://" |
| UrlClean.StripWww | extension/popup/popup.js:173-180 | the `www.` group removes exactly a leading "www." |
| UrlClean.CleanHost | extension/popup/popup.js:173-180 | the `replace(/^(https?:\/\/)?(www\.)?/, "")` then `split('/')[0]` clean-up; `CleanHostOfUrl`, `CleanHostTwice` and `CleanHostIsSlice` state that a link cleans to its host, that a second pass is the identity unless "www." remains, and that the result is a slice of the input |
| UrlClean.CleanHostOfUrl | extension/popup/popup.js:173-180 | a typed link scheme+www+host+path cleans to its host |
| UrlClean.CleanHostTwice | extension/popup/popup.js:173-180 | a second clean-up of a cleaned host changes nothing, except that a host still starting with "www." (from "www.www.x") loses one more "www." |
| Schema.NewSite | backend/src/db/schema.ts:32-46 | a new site row has 0 attempts, no unlock request and the creation instant (column defaults, lines 41-43) |
| Schema.DeleteSite | backend/src/db/schema.ts:48-60 | deleting a site removes it and cascades to exactly its windows, keeping every other row and the foreign keys |
| Schema.DeleteCategory | backend/src/db/schema.ts:32-46 | deleting a category nulls the category of the sites that referenced it, changes nothing else and keeps the foreign keys |
| Schema.DetachCategories | backend/src/db/schema.ts:39 | `set null`: a site keeps a category exactly while it exists, and no other field changes |
| Schema.DeleteUser | backend/src/db/schema.ts:4-74 | deleting a user cascades to their categories, sites, quotes and the windows of those sites; every surviving row keeps its values, except that a surviving site whose category was deleted has its category set to null |
| Schema.DeleteUserKeepsWellformed | backend/src/db/schema.ts:4-74 | after the user cascade every foreign key still resolves |
| Schema.Database.constructor | backend/src/db/schema.ts:4-74 | the handle starts on well-formed tables |
| SitesRoutes.IsUnlockReady | backend/src/routes/sites.ts:12-17 | the readiness test; `NotRequestedNeverReady`, `ReadyIffNothingRemains` and `CountdownRunsDown` state that it never holds without a request and holds exactly when no time remains |
| SitesRoutes.GetUnlockTimeRemaining | backend/src/routes/sites.ts:19-23 | the remainder is never negative |
| SitesRoutes.NotRequestedNeverReady | backend/src/routes/sites.ts:12-23 | without a request a site is never ready, and the remainder is the full six hours |
| SitesRoutes.ReadyIffNothingRemains | backend/src/routes/sites.ts:14-23 | with a request, ready exactly when nothing remains; otherwise the remainder is positive and is what the delay leaves |
| SitesRoutes.CountdownRunsDown | backend/src/routes/sites.ts:14-23 | the remainder never grows as time passes, reaches 0 six hours after the request and never exceeds six hours |
| SitesRoutes.UnlockGate | backend/src/routes/sites.ts:103-122 | the check shared by deactivation and deletion; `UnlockGateOutcomes` states its three outcomes, and `DeleteGatedLikeDeactivation` that both routes use it alike |
| SitesRoutes.UnlockGateOutcomes | backend/src/routes/sites.ts:103-122 | the gate opens exactly when the site is unlock-ready; "not requested" exactly when there is no request; a "not ready" refusal carries the positive remainder |
| SitesRoutes.Owned | backend/src/routes/sites.ts:88-98 | a site is found exactly when it exists and belongs to the caller |
| SitesRoutes.View | backend/src/routes/sites.ts:39-46 | a listed site carries its row and windows, `unlockReady` as the readiness test, and a remainder exactly when requested, 0 exactly when ready |
| SitesRoutes.WindowsOfSite | backend/src/routes/sites.ts:25-55 | the site's windows are exactly the window rows that reference it, each once |
| SitesRoutes.ListSites | backend/src/routes/sites.ts:25-55 | GET / lists every site of the caller exactly once, nothing else, each with its windows and its unlock state at this instant |
| SitesRoutes.ListOwned | backend/src/routes/sites.ts:27-48 | the loop of GET / over the site table: every site of the caller once, nothing else, each with its view |
| SitesRoutes.PutDecision | backend/src/routes/sites.ts:100-134 | the refusal or the row a PUT writes; `PutRefusesPrematureDeactivation`, `PutOnlyGatesDeactivation`, `PutTimestampRule` and `PutFieldRule` state when it refuses and every field of the row it writes, and `SitesRoutes.Put` is proved against it |
| SitesRoutes.PutRefusesPrematureDeactivation | backend/src/routes/sites.ts:101-122 | deactivating an active site is refused exactly when it is not ready, with "not requested" or "not ready" and the remainder |
| SitesRoutes.PutOnlyGatesDeactivation | backend/src/routes/sites.ts:100-134 | any update that does not deactivate an active site is written |
| SitesRoutes.PutTimestampRule | backend/src/routes/sites.ts:125-136 | a deactivation that goes through keeps the granted unlock request; every other write, re-activation and plain edits included, clears it |
| SitesRoutes.PutFieldRule | backend/src/routes/sites.ts:127-136 | a written row takes each present field of the body and keeps the others (an empty url keeps the stored one, an explicit null category clears it); id, owner, counter and creation time are never written |
| SitesRoutes.DeactivatingAsWritten | backend/src/routes/sites.ts:101 | as written, only the boolean `false` on a stored `true` counts as deactivating; `LooseIsActiveSkipsGate` shows a null or a false-like non-boolean is not |
| SitesRoutes.WrittenIsActiveAsWritten | backend/src/routes/sites.ts:132 | as written, anything but a missing field is written to the nullable column, null as NULL and a non-boolean as Postgres reads it, or a 500 when Postgres rejects it; `LooseIsActiveSkipsGate` uses it |
| SitesRoutes.SyncedAsWritten | backend/src/routes/sync.ts:20 | the sync route keeps a row exactly when its stored `is_active` is truthy, so NULL and false are dropped; `LooseIsActiveSkipsGate` uses it |
| SitesRoutes.LooseIsActiveSkipsGate | backend/src/routes/sites.ts:101-132 | as written, `{"isActive": null}`, or a non-boolean that Postgres reads as false such as `"false"` or `0`, on an active site is not a deactivation, so no gate runs, yet it stores NULL or false, which the sync route's truthiness filter then drops |
| SitesRoutes.ReadIsActive | backend/src/routes/sites.ts:86 | the corrected reading of the body: a value exactly when `isActive` is a boolean, so null or a value of another type leaves the column alone like a missing field |
| SitesRoutes.PutNeverUnblocksEarly | backend/src/routes/sites.ts:100-134 | with the corrected reading, a PUT leaves an active site inactive only for the boolean `isActive: false` with a ready unlock request; any other body, null and non-boolean values included, keeps it active |
| SitesRoutes.Create | backend/src/routes/sites.ts:57-81 | a missing or empty url is a 400 that changes nothing; with a url, the site is created exactly when Postgres accepts the row (owner and category exist, url within `varchar(500)`), with the body's url, `categoryId \|\| null`, `isActive ?? true` and the column defaults, as the only change; otherwise a 500 that changes nothing; the database stays well formed |
| SitesRoutes.Put | backend/src/routes/sites.ts:83-143 | 404 for a site that is not the caller's; otherwise the table changes exactly as the PUT decision says, or not at all when refused; a row Postgres rejects (missing category, url over 500 characters) is a 500 with no change |
| SitesRoutes.RequestUnlock | backend/src/routes/sites.ts:146-190 | 404 for a foreign site; a site already requested keeps its timestamp; otherwise the timestamp is this instant; nothing else changes |
| SitesRoutes.FreshRequestReportIsAccurate | backend/src/routes/sites.ts:175-185 | a fresh request reports not ready with the full six hours left |
| SitesRoutes.CancelUnlock | backend/src/routes/sites.ts:193-220 | for an owned site, in any state, the request is cleared and nothing else changes; 404 otherwise |
| SitesRoutes.Delete | backend/src/routes/sites.ts:223-265 | for an owned site, the unlock gate refuses with its reason or the site and its windows are removed; 404 otherwise |
| SitesRoutes.DeleteGatedLikeDeactivation | backend/src/routes/sites.ts:240-256 | for an active site, deletion and deactivation are refused in exactly the same cases, with the same reason |
| SitesRoutes.RequestUnlockTwice | backend/src/routes/sites.ts:163-172 | a second request keeps the first timestamp |
| SitesRoutes.DeleteAfterCooldown | backend/src/routes/sites.ts:223-265 | a delete five hours after the request is refused; at six hours it succeeds and the site is gone |
| SitesRoutes.DeactivateWithoutRequest | backend/src/routes/sites.ts:103-122 | deactivation without a request is refused with "not requested" and changes nothing |
| TimeWindowRoutes.InsertWindow | backend/src/routes/timeWindows.ts:32-40 | inserting a window for an existing site adds exactly that row and keeps the tables well formed |
| TimeWindowRoutes.RemoveWindow | backend/src/routes/timeWindows.ts:76 | removing a window removes exactly that row and keeps the tables well formed |
| TimeWindowRoutes.RemoveAfterInsert | backend/src/routes/timeWindows.ts:11-83 | removing a window just inserted gives back the original tables |
| TimeWindowRoutes.NewWindow | backend/src/routes/timeWindows.ts:32-40 | the inserted row carries the body's fields, with the weekday stored as given (`?? null`) |
| TimeWindowRoutes.CreateWindow | backend/src/routes/timeWindows.ts:11-47 | 400 without a site, start and end; 404 when the site is not the caller's; otherwise exactly the new row is added |
| TimeWindowRoutes.DeleteWindow | backend/src/routes/timeWindows.ts:49-83 | 404 for a missing window, 403 when its site is not the caller's, otherwise exactly that row is removed |
| TimeWindowRoutes.CreateThenDelete | backend/src/routes/timeWindows.ts:11-83 | creating and then deleting a window leaves the database unchanged |
| TimeWindowRoutes.SundayIsKept | backend/src/routes/timeWindows.ts:36 | day 0 is stored as Sunday, not as "every day" |
| Sync.ToRuleWindow | backend/src/routes/sync.ts:30-35 | the projected window carries the row's id, day, start and end |
| Sync.WindowsOf | backend/src/routes/sync.ts:30-35 | a site's windows are never more than the window rows |
| Sync.SitesOf | backend/src/routes/sync.ts:13-16 | exactly the caller's site rows are kept |
| Sync.ActiveSites | backend/src/routes/sync.ts:20 | exactly the active sites are kept |
| Sync.RulesFor | backend/src/routes/sync.ts:27-36 | one rule per site given |
| Sync.SyncRules | backend/src/routes/sync.ts:11-48 | the rules GET /sync answers: the caller's active sites, each with its windows; `SyncSound`, `SyncComplete`, `SyncExcludesOtherUsers`, `SyncConcat` and `SyncCount` state which sites yield rules, in which order and how many |
| Sync.SyncSound | backend/src/routes/sync.ts:11-48 | every rule comes from an active site owned by the caller, with its id, url and windows |
| Sync.SyncComplete | backend/src/routes/sync.ts:11-48 | every active site of the caller yields its rule; a site that is inactive or another user's yields none |
| Sync.SyncExcludesOtherUsers | backend/src/routes/sync.ts:13-16 | another user's site yields no rule, active or not |
| Sync.WindowsOfExact | backend/src/routes/sync.ts:30-35 | a rule's windows are exactly its site's window rows, projected |
| Sync.SyncConcat | backend/src/routes/sync.ts:11-48 | the rules of two runs of site rows are the rules of each, in order |
| Sync.SyncCount | backend/src/routes/sync.ts:20-36 | at most one rule per site row; exactly one each when all are the caller's and active; none when none is |
| SyncedExtension.MapGet | extension/background.js:172-187 | `Map.get` finds a value exactly for a present key, and only a stored entry |
| SyncedExtension.MapSet | extension/background.js:134-137 | `Map.set` appends a new key and replaces an old one in place; the key then maps to the value and other keys are unchanged |
| SyncedExtension.MapSetUnique | extension/background.js:134-137 | setting keeps the keys distinct |
| SyncedExtension.MapFromRules | extension/background.js:134-137 | the rebuilt Map has distinct keys |
| SyncedExtension.LastRuleForIsLast | extension/background.js:134-137 | the last rule carrying a url: none exactly when no rule carries it, otherwise no later rule repeats the url |
| SyncedExtension.MapFromRulesLookup | extension/background.js:134-137 | the rebuilt Map answers every url with the last rule carrying it |
| SyncedExtension.MapFromRulesGrows | extension/background.js:134-137 | a new url is appended to the Map; a repeated url keeps its place |
| SyncedExtension.IsInAllowedTimeWindow | extension/background.js:190-213 | true exactly when some window of the rule admits the weekday and "HH:MM"; never for an absent or empty list |
| SyncedExtension.AllowedByMinutes | extension/background.js:190-213 | for well-formed times, a window admits a moment exactly when its minute lies between start and end, inclusive |
| SyncedExtension.AllowedIgnoresOrder | extension/background.js:190-213 | the windows act as a set: any rearrangement gives the same answer |
| SyncedExtension.WindowAllowsByMinutes | extension/background.js:190-213 | one window read as minutes of the day, ends included |
| SyncedExtension.NoWindowsBlocksAlways | extension/background.js:172-187 | a rule without windows blocks any hostname containing its url, at every moment |
| SyncedExtension.SeededDailyAdmitsEnd | backend/src/db/seed.ts:78-96 | the seeded daily windows admit 14:30, their end |
| SyncedExtension.SeededDailyRefusesGap | backend/src/db/seed.ts:78-96 | the seeded daily windows do not admit 15:00 |
| SyncedExtension.SeededFridayWindow | backend/src/db/seed.ts:99-107 | the day-5 window admits Friday (getDay 5) at 20:00 and not Saturday |
| SyncedExtension.Background.constructor | extension/background.js:6-9 | a fresh worker is logged out with no rules, Map, cache or statistics |
| SyncedExtension.Background.Rebuild | extension/background.js:134-137 | the rules are replaced and the Map is rebuilt from them; nothing else changes |
| SyncedExtension.Background.SetToken | extension/background.js:62-68 | the token and user are stored; nothing else changes |
| SyncedExtension.Background.Logout | extension/background.js:74-81 | the login, rules, Map and cached copy are forgotten; the statistics stay |
| SyncedExtension.Background.SyncRules | extension/background.js:113-149 | no change without a token, after a network error or on a non-401 failure; a 401 drops the token; a fetched body replaces the rules, Map and cache |
| SyncedExtension.Background.LoadCachedRules | extension/background.js:259-277 | a cached rule list, when stored, becomes the rules and the Map |
| SyncedExtension.Background.InitializeStats | extension/background.js:30-39 | zeroed statistics dated today are stored only when none exist |
| SyncedExtension.Background.CheckAndResetDailyStats | extension/background.js:42-57 | the same day changes nothing; a new day zeroes today's count, grows the streak when something was blocked (it is never reset) and keeps the total |
| SyncedExtension.Background.RecordAccessAttempt | extension/background.js:216-223 | today's and the total count each grow by one |
| SyncedExtension.Background.IsUrlBlocked | extension/background.js:172-187 | true exactly when some url of the Map occurs in the hostname and its rule allows no window now |
| SyncedExtension.LogoutUnblocksEverything | extension/background.js:74-81 | after logout nothing is blocked |
| SyncedExtension.SyncedRuleBlocks | extension/background.js:113-187 | a synced rule "youtube.com" without windows blocks "www.youtube.com" at any time |
| SyncedPopup.GetTimeAgo | extension/popup/popup.js:327-334 | the "last synced" text; `TimeAgoJustNow`, `TimeAgoMinutes`, `TimeAgoHours` and `TimeAgoDays` state for which elapsed times each form appears and that its number reads back to the whole units |
| SyncedPopup.TimeAgoJustNow | extension/popup/popup.js:327-334 | "Just now" exactly below one minute |
| SyncedPopup.TimeAgoMinutes | extension/popup/popup.js:327-334 | "Km ago" exactly for K whole minutes within the first hour |
| SyncedPopup.TimeAgoHours | extension/popup/popup.js:327-334 | "Kh ago" exactly for K whole hours within the first day |
| SyncedPopup.TimeAgoDays | extension/popup/popup.js:327-334 | "Kd ago" exactly for K whole days from one day on |
| SyncedPopup.CleanInput | extension/popup/popup.js:173-180 | blank input sends nothing; otherwise the trimmed text, cleaned, without any '/' |
| SyncedPopup.CleanInputOfLink | extension/popup/popup.js:173-180 | a typed link is sent as its host, case kept |
| SyncedPopup.BareSchemeCleansToEmpty | extension/popup/popup.js:173-193 | "https://" cleans to the empty url, which POST / refuses |
| SyncedPopup.WindowTexts | extension/popup/popup.js:230-244 | one "HH:MM-HH:MM" label per window, in order |
| SyncedPopup.RuleSummary | extension/popup/popup.js:230-244 | the badge and window summary of a rule; `SummaryAllDay`, `SummaryFewWindows` and `SummaryManyWindows` state its text for no windows, one or two, and more |
| SyncedPopup.SummaryAllDay | extension/popup/popup.js:230-244 | the all-day badge and "Blocked all day" exactly for a rule without windows; an absent list counts as empty |
| SyncedPopup.SummaryFewWindows | extension/popup/popup.js:230-244 | one or two windows are all spelled out |
| SyncedPopup.SummaryManyWindows | extension/popup/popup.js:230-244 | beyond two, the first two are spelled out and the rest counted as " +N more" |
| SyncedPopup.FromSynced | extension/popup/popup.js:214-257 | a synced rule reaches the popup without an attempt count |
| SyncedPopup.TotalAttempts | extension/popup/popup.js:269-279 | the loop adds up every rule's `accessAttempts \|\| 0` |
| SyncedPopup.DisplayedTotal | extension/popup/popup.js:269-279 | the rule total when positive, else the stored counter |
| SyncedPopup.SyncedRulesSumToZero | extension/popup/popup.js:260-280 | synced rules always sum to 0, so the stored counter is shown |
| LocalExtension.FindSite | extension-local/background.js:229-248 | `findIndex`: the first site with the id, or none exactly when no site has it |
| LocalExtension.RemoveAt | extension-local/background.js:345 | `splice(i,1)` removes just that site and keeps the order and multiset of the rest |
| LocalExtension.DelayMs | extension-local/background.js:286-300 | the delay in ms: six hours when settings are missing, `unlockDelay` hours in ms when it is stored, and none (NaN) exactly when stored settings lack a delay |
| LocalExtension.Gate | extension-local/background.js:286-300 | only active sites are gated; a refusal is "needs unlock" or "not ready" with a positive remainder |
| LocalExtension.GateOpensAfterDelay | extension-local/background.js:286-300 | with a delay, the gate opens exactly once the delay has passed since the request |
| LocalExtension.MissingDelayOpensGate | extension-local/background.js:286-300 | a stored settings record without a delay opens the gate as soon as an unlock is requested |
| LocalExtension.ShouldBlockNow | extension-local/background.js:489-518 | true exactly when the list is absent or empty or some window blocks this weekday and time (days absent or empty mean every day) |
| LocalExtension.HostMatchesIsIncludes | extension-local/background.js:474 | the three hostname tests amount to "the url occurs in the hostname" |
| LocalExtension.PausedSiteNeverBlocks | extension-local/background.js:467-486 | a paused site never decides blocking |
| LocalExtension.NewLocalSite | extension-local/background.js:210-217 | a new site has the lower-cased, cleaned url, is active, unrequested, id `Date.now()` and the given windows or none |
| LocalExtension.Patch | extension-local/background.js:367 | `Object.assign` takes every given field and keeps the others |
| LocalExtension.NewLocalWindow | extension-local/background.js:389-398 | the window's own id wins over the generated one; the rest is copied |
| LocalExtension.WithoutWindow | extension-local/background.js:420 | exactly the windows with other ids remain |
| LocalExtension.FreshStats | extension-local/background.js:29-62 | zeroed statistics dated today |
| LocalExtension.LocalBackground.constructor | extension-local/background.js:7 | nothing stored, nothing loaded |
| LocalExtension.LocalBackground.Store | extension-local/background.js:219 | the list is stored and loaded |
| LocalExtension.LocalBackground.InitializeData | extension-local/background.js:29-62 | missing keys get their defaults, present ones are kept, and the list is loaded |
| LocalExtension.LocalBackground.LoadSites | extension-local/background.js:81-86 | the in-memory list becomes the stored one |
| LocalExtension.LocalBackground.AddSite | extension-local/background.js:198-226 | a duplicate (case-insensitive) is refused with no change; otherwise the new site is appended |
| LocalExtension.LocalBackground.RequestUnlock | extension-local/background.js:229-248 | the found site's request becomes this instant (a later request restarts it); "not found" otherwise |
| LocalExtension.LocalBackground.CancelUnlock | extension-local/background.js:251-270 | the found site's request is cleared; "not found" otherwise |
| LocalExtension.LocalBackground.ToggleSite | extension-local/background.js:273-311 | an active site is paused only when the gate opens, else the gate's answer and no change; a paused site is re-activated |
| LocalExtension.LocalBackground.RemoveSite | extension-local/background.js:314-353 | the same gate for active sites, then just that site is removed, order kept |
| LocalExtension.LocalBackground.UpdateSite | extension-local/background.js:356-375 | the fields are copied over the found site with no gate at all |
| LocalExtension.LocalBackground.AddTimeWindow | extension-local/background.js:378-406 | the window is appended to the found site's list, which is created when absent |
| LocalExtension.LocalBackground.RemoveTimeWindow | extension-local/background.js:409-428 | the found site keeps its other windows, in order |
| LocalExtension.LocalBackground.CheckAndResetDailyStats | extension-local/background.js:89-107 | a new day zeroes today's count, grows the streak when something was blocked and resets it otherwise; the same day, or missing statistics, change nothing |
| LocalExtension.LocalBackground.RecordBlockedAttempt | extension-local/background.js:521-528 | today's and the total count each grow by one |
| LocalExtension.LocalBackground.IsUrlBlocked | extension-local/background.js:467-486 | true exactly when some active site's url occurs in the lower-cased hostname and its windows block now |
| LocalExtension.RequestTwiceRestarts | extension-local/background.js:240 | a second request overwrites the first timestamp, unlike the server |
| LocalExtension.FindSiteKeepsIndex | extension-local/background.js:229-248 | replacing the found site by one with the same id keeps it the one found |
| LocalExtension.AddTwiceRefused | extension-local/background.js:204 | adding the same text twice is refused the second time |
| LocalExtension.ToLowerIdempotent | extension-local/background.js:469 | lower-casing twice is lower-casing once |
| LocalExtension.DuplicateTestSeesRawInput | extension-local/background.js:204 | the duplicate test compares the raw input: "https://youtube.com" is not seen as "youtube.com" |
| LocalPopup.GetTimeRemaining | extension-local/popup/popup.js:188-200 | 0 exactly from six hours after the request; otherwise what remains of six hours |
| LocalPopup.FormatTime | extension-local/popup/popup.js:203-211 | the "Xh Ym" / "Ym" remainder text; `FormatTimeFields` and `FormatTimeReadsBack` state that its fields are the whole hours and minutes and that equal texts mean equal whole minutes |
| LocalPopup.FormatTimeFields | extension-local/popup/popup.js:203-211 | the hour and minute fields recompose the whole minutes |
| LocalPopup.FormatTimeReadsBack | extension-local/popup/popup.js:203-211 | two durations show the same text exactly when they have the same whole minutes |
| LocalPopup.StatusText | extension-local/popup/popup.js:91-103 | "Paused", "Active", or the remaining time for a pending unlock |
| LocalPopup.UnlockButtonFor | extension-local/popup/popup.js:105-123 | the unlock button shown for a site; `UnlockButtonCases` states when each button appears |
| LocalPopup.UnlockButtonCases | extension-local/popup/popup.js:105-123 | "request unlock" exactly for an active unrequested site; "cancel" exactly when requested; none otherwise |
| LocalPopup.HandleAddSite | extension-local/popup/popup.js:214-221 | blank input sends nothing; otherwise the trimmed, lower-cased, cleaned host without '/' |
| LocalPopup.CleanHostIsSlice | extension-local/popup/popup.js:221 | the cleaned host is a piece of its input |
| LocalPopup.PopupUrlIsStoredUrl | extension-local/popup/popup.js:214-221 | the worker's own clean-up of what the popup sends changes nothing, except that a host still starting with "www." (typed "www.www.x", sent "www.x") loses one more "www." and is stored as "x" |
| LocalPopup.ToReply | extension-local/popup/popup.js:171-183 | success exactly for the successful outcomes |
| LocalPopup.RemoveToast | extension-local/popup/popup.js:171-183 | the toast for a removeSite answer; `RemoveToastPerOutcome` states the toast for each outcome |
| LocalPopup.RemoveToastPerOutcome | extension-local/popup/popup.js:171-183 | every answer of removeSite is shown with its own toast, "not ready" with the remaining time |
| SiteList.FormatTimeRemaining | frontend/src/components/SiteList.tsx:12-24 | the timer text; `FormatTimeRemainingFields`, `PaddedReadsBack` and `FormatTimeRemainingReadsBack` state its fields and that equal texts mean equal whole seconds below an hour and equal whole minutes from an hour up |
| SiteList.FormatTimeRemainingFields | frontend/src/components/SiteList.tsx:12-24 | the hour, minute and second fields are those of the whole seconds |
| SiteList.PaddedReadsBack | frontend/src/components/SiteList.tsx:12-24 | a padded field below 100 is two digits that read back to the value |
| SiteList.SecondsTextOfMs | frontend/src/components/SiteList.tsx:12-24 | the text depends only on the whole seconds |
| SiteList.FormatTimeRemainingReadsBack | frontend/src/components/SiteList.tsx:12-24 | two durations show the same text exactly when they agree to the second below one hour and to the minute from one hour up |
| SiteList.InitialCountdowns | frontend/src/components/SiteList.tsx:33-43 | one countdown per pending site, holding its fetched remainder (the last listed wins), all positive |
| SiteList.SitesChanged | frontend/src/components/SiteList.tsx:32-58 | with no pending site the countdowns are left (line 35); otherwise they restart from the fetch |
| SiteList.Tick | frontend/src/components/SiteList.tsx:45-56 | each countdown loses a second and those that reach 0 are dropped, so all stay positive |
| SiteList.ReadyIsServerReady | frontend/src/components/SiteList.tsx:183-184 | with positive countdowns the shown readiness is the server's |
| SiteList.ToggleActionFor | frontend/src/components/SiteList.tsx:61-90 | re-activation is always sent; a pause is sent exactly when shown ready, else the error message |
| SiteList.DeleteActionFor | frontend/src/components/SiteList.tsx:118-126 | a delete is sent exactly when shown ready and confirmed; refused exactly when not shown ready |
| SiteList.RemoveWindowLocal | frontend/src/components/SiteList.tsx:140-156 | exactly the windows with other ids remain; the rest of the view is kept |
| SiteList.RemoveWindowKeepsOrder | frontend/src/components/SiteList.tsx:146-149 | removal distributes over concatenation, keeping order |
| SiteList.ControlFor | frontend/src/components/SiteList.tsx:253-308 | the timer or lock control shown for a site; `PendingKeepsTimer`, `ExpiredCountdownShowsTimerAgain`, `IntendedAgreesWhileCounting` and `CountdownUnlocksControls` state what it shows as written and with the corrected tick |
| SiteList.PendingKeepsTimer | frontend/src/components/SiteList.tsx:183-184 | as written: a pending, not-ready site with live countdowns is never shown ready and keeps its timer |
| SiteList.ExpiredCountdownShowsTimerAgain | frontend/src/components/SiteList.tsx:45-56 | as written: a one-second countdown is dropped and the timer reverts to the fetched "1s" |
| SiteList.TickKeepingExpired | frontend/src/components/SiteList.tsx:45-56 | corrected tick: same keys, never negative, an expired countdown stays at 0 |
| SiteList.TicksOfValue | frontend/src/components/SiteList.tsx:45-56 | after k corrected ticks a countdown holds max(start - 1000k, 0) |
| SiteList.TicksNonNegative | frontend/src/components/SiteList.tsx:45-56 | corrected countdowns never go negative |
| SiteList.IntendedAgreesWhileCounting | frontend/src/components/SiteList.tsx:253-308 | the corrected controls equal the original while every countdown is positive |
| SiteList.CountdownUnlocksControls | frontend/src/components/SiteList.tsx:253-308 | with corrected ticks the delete button appears once the countdown has run out, before that the timer shows what is left |
| Agreement.DashboardPauseMatchesServer | frontend/src/components/SiteList.tsx:61-90 | for an active site the dashboard sends a pause exactly when the server's PUT would write it |
| Agreement.DashboardDeleteMatchesServer | frontend/src/components/SiteList.tsx:118-126 | the dashboard sends a delete exactly when confirmed and the server's gate is open at the fetch |
| Agreement.CorrectedCountdownTracksServer | frontend/src/components/SiteList.tsx:45-56 | with corrected ticks, "ready" k seconds after the fetch is exactly the server's readiness at that instant |
| Agreement.LocalGateMatchesServer | extension-local/background.js:286-300 | at the default delay the local gate opens, asks for an unlock and reports a remainder exactly as the server's gate does |
| Agreement.PopupMatchesGateAtDefault | extension-local/popup/popup.js:188-200 | at the default delay the popup shows 0 exactly when the worker's gate opens |
| Agreement.PopupIgnoresConfiguredDelay | extension-local/popup/popup.js:188-200 | for any other whole-hour delay, popup and gate disagree at some instant |
| Agreement.ToLocalWindow | extension-local/background.js:489-518 | a synced window becomes a local one with the same times, its weekday as a one-day list |
| Agreement.WindowMeaningsCoincide | extension-local/background.js:489-518 | one window: the moments the synced copy allows are the ones the local copy blocks |
| Agreement.OppositeWindowMeaning | extension-local/background.js:489-518 | the same windows allow in one extension exactly what they block in the other; both block always when there are none |

## Left out

- HTTP framing is not modelled: JSON parsing, status codes as numbers and Express routing.
- Authentication is not modelled: the JWT middleware, the auth routes and login. The caller's user id is a parameter.
- The database is a value of maps keyed by primary key. SQL, transactions and the connection pool are not modelled. UUIDs and `now()` are parameters.
- Concurrent requests and races are not modelled. Each call runs alone.
- Query results have no order (there is no ORDER BY). `SitesRoutes.ListSites` and `SitesRoutes.WindowsOfSite` promise membership and uniqueness, not order.
- Postgres time normalisation is outside the model: "14:00" is stored and "14:00:00" comes back. Times are strings, and `Clock.Slice5OfHHMMSS` covers the read side.
- ISO timestamps are modelled as millisecond integers, both in the server rows and in `chrome.storage`.
- The categories and quotes routes, the quote sync and the seed quotes are not modelled. They are not part of the access decision. The schema's cascades for them are modelled.
- The extensions' `chrome.storage`, `chrome.alarms`, `chrome.tabs` redirects and message plumbing are not modelled. Storage is class fields. Each message handler is a method.
- The clock is a parameter: `Date.now()`, `getDay()` and `toTimeString()`. `new URL(url).hostname` is also a parameter, and None means the url does not parse.
- Asynchronous completion of the extensions' storage writes is not modelled. Writes take effect at once.
- The backend POST in `recordAccessAttempt` (extension/background.js:216-223) is not modelled. It is a network call whose answer is ignored.
- These handlers of the local worker are not modelled:
  - getSite, getStats, getSettings, updateSettings and clearStats, which are plain storage reads and writes;
  - the quote handlers and getDefaultQuotes, which have no part in blocking.
- A JSON parse error of the cached rule list is not modelled.
- DOM rendering, toasts and `confirm()` are not modelled. `confirm()` is a boolean parameter.
- `lastSync` display (`updateLastSync`) is not modelled. Only `getTimeAgo` is.
- The unused constant at extension-local/background.js:4 is not modelled.
- `SyncedExtension.Background.SetToken`: does not start the follow-up sync. That sync is a separate `SyncRules` call.
- `SyncedExtension.Background.SyncRules`: on a 401 the in-memory user id is kept, as the code does. Only the token is dropped.
- `UrlClean.CleanHost`: models the regular expression as prefix stripping of the two optional groups. No general regex engine is modelled.
- `Text.ToLower`: covers the ASCII letters only.
- `Text.Trim`: removes the code points of sections 12.2 and 12.3 of ECMA-262 (tab, LF, VT, FF, CR, space, U+00A0, U+1680, U+2000-U+200A, U+2028, U+2029, U+202F, U+205F, U+3000, U+FEFF); it follows the Unicode version whose space separators these are.
- `LocalPopup.RemoveToast`: shows positive remainders only; a negative one, truthy in JavaScript, would get the error toast here. The worker never sends one, because the gate's remainder is positive.
- `SitesRoutes.Create`, `SitesRoutes.Put`, `SitesRoutes.RequestUnlock`, `SitesRoutes.CancelUnlock`, `SitesRoutes.Delete`, `TimeWindowRoutes.CreateWindow`, `TimeWindowRoutes.DeleteWindow`: ids are plain strings. A `:id` or `blockedSiteId` that is not a UUID makes Postgres throw and the route answer 500; the model answers 404 instead.
- `TimeWindowRoutes.CreateWindow`: a start or end time Postgres cannot read as `time` (such as "lunch") makes the insert throw and the route answer 500; the model stores the text.
- `LocalExtension.DelayMs`: a fractional or non-numeric `unlockDelay` is not modelled. The delay is a whole number of hours, and a missing one is NaN.
- `SitesRoutes.Put`: the handler reads a JSON `null` or a non-boolean `isActive` as absent (`SitesRoutes.ReadIsActive`). The source instead writes NULL, or whatever Postgres makes of the value, without the cooldown gate; a value read as false, or NULL, makes the sync route stop blocking the site at once (see Findings). Which texts Postgres accepts as booleans is not modelled: `JsonField.Other` carries its reading as a parameter.
- `SiteList.FormatTimeRemaining`, `LocalPopup.FormatTime`: take non-negative durations only. Every caller passes a remainder that is never negative.
- `SiteList.SitesChanged`: the teardown and restart of the interval timer are not modelled. The new countdowns are modelled.

## Findings

| source | as written | input that shows it | evidently intended | confidence | as-written member | corrected member |
|---|---|---|---|---|---|---|
| frontend/src/components/SiteList.tsx:45-56 | the tick drops a countdown once it would reach 0. So the readiness test `countdowns[id] <= 0` (lines 62, 119, 184) never holds, and the timer falls back to the fetched `timeRemaining` (line 262). | a pending site fetched with `timeRemaining` 1000: after one tick the countdowns are `{}`, and the timer shows "1s" again instead of the delete button | keep an expired countdown at 0. Prefer the countdown in the timer test. Show the controls once it has run out. | not executed | SiteList.ExpiredCountdownShowsTimerAgain | SiteList.CountdownUnlocksControls |
| backend/src/routes/sites.ts:101-132 | `isDeactivating` tests `isActive === false`, but the write tests `isActive !== undefined`, and the `is_active` column is nullable (schema.ts:41). | PUT `{"isActive": null}` on an active site with no unlock request: no gate runs, the row gets `is_active` NULL, and sync.ts:20 drops it from the synced rules. `{"isActive": "false"}` or `0` does the same with a stored false, since Postgres reads that text as false | only the boolean `false` changes the column, and it goes through the cooldown gate; the model reads null and non-boolean values as absent | not executed | SitesRoutes.LooseIsActiveSkipsGate | SitesRoutes.PutNeverUnblocksEarly |
